/** The user-visible registers, and memory instructions resolved to accesses and register effects. */
module RegisterFile {
  import opened Words
  import opened FlatMemory
  import opened ExclusiveMonitor
  import Alu

  type RegNo = n: int | 0 <= n < 32
  datatype Vec = Vec(lo: u64, hi: u64)
  type Generals = s: seq<u64> | |s| == 31 witness seq(31, i => 0)
  type Vectors = s: seq<Vec> | |s| == 32 witness seq(32, i => Vec(0, 0))

  datatype Regs = Regs(x: Generals, sp: u64, pc: u64, nzcv: Alu.Nzcv, v: Vectors, tpidr: u64)

  const ZR: RegNo := 31

  function Narrow(v: u64, w32: bool): u64 {
    if w32 then v % TWO32 else v
  }

  function Read(r: Regs, n: RegNo, w32: bool): u64 {
    if n == ZR then 0 else Narrow(r.x[n], w32)
  }

  function Write(r: Regs, n: RegNo, w32: bool, v: u64): Regs {
    if n == ZR then r else r.(x := r.x[n := Narrow(v, w32)])
  }

  function NoFlags(): Alu.Nzcv {
    Alu.Nzcv(false, false, false, false)
  }

  /** The flags at bits 31 to 28 of the NZCV register. */
  function FlagsWord(f: Alu.Nzcv): u64 {
    0x1000_0000 * (8 * Alu.Unit(f.n) + 4 * Alu.Unit(f.z) + 2 * Alu.Unit(f.c) + Alu.Unit(f.v))
  }

  function WordFlags(v: u64): Alu.Nzcv {
    var f := v / 0x1000_0000;
    Alu.Nzcv(f / 8 % 2 == 1, f / 4 % 2 == 1, f / 2 % 2 == 1, f % 2 == 1)
  }

  /** The flags survive MRS NZCV followed by MSR NZCV. */
  lemma FlagsRoundTrip(f: Alu.Nzcv)
    ensures WordFlags(FlagsWord(f)) == f
  {
  }

  function ReadBase(r: Regs, n: RegNo): u64 {
    if n == ZR then r.sp else r.x[n]
  }

  function WriteBase(r: Regs, n: RegNo, v: u64): Regs {
    if n == ZR then r.(sp := v) else r.(x := r.x[n := v])
  }

  datatype Extend = Uxtb | Uxth | Uxtw | Uxtx | Sxtb | Sxth | Sxtw | Sxtx
  datatype Index = NoIndex | Pre | Post

  /** `operand` of an add or subtract is its second source after shift or extension; `Compute` stands for every other
      data-processing form, whose result and flags are left open. */
  datatype Op =
    | Ldr | Str | Ldrs | Ldar | Stlr | Ldp | Stp | Ldpsw | Ldxr | Stxr
    | AddSub(sub: bool, operand: u64, sets: bool, rnSp: bool, rdSp: bool)
    | AddCarry(sub: bool, sets: bool) | MulHigh(signedForm: bool)
    | Compute(value: u64, flags: Option<Alu.Nzcv>) | CopyToVector
    | Branch(target: u64, link: bool) | BranchIf(target: u64, cond: nat) | Nop
    | Mrs(from: int) | Msr(into: int) | Svc(answer: Option<u64>)
    | Refused | Trapped

  /** A decoded instruction; `size` is the transfer in bytes, `imm` the immediate as a 64-bit pattern. */
  datatype Insn = Insn(
    op: Op, w32: bool, rd: RegNo, rn: RegNo, rm: RegNo, rt2: RegNo, imm: u64, literal: bool,
    extend: Extend, shift: nat, lsl: bool, index: Index, size: nat, signed: bool, vector: bool)

  predicate IsPair(op: Op) {
    op == Ldp || op == Stp || op == Ldpsw
  }

  predicate IsStore(op: Op) {
    op == Str || op == Stlr || op == Stp || op == Stxr
  }

  predicate IsMemory(op: Op) {
    op == Ldr || op == Str || op == Ldrs || op == Ldar || op == Stlr || IsPair(op) || op == Ldxr || op == Stxr
  }

  /** The sixteen-byte single-register form. */
  predicate IsSingleVector(insn: Insn) {
    insn.vector && (insn.op == Ldr || insn.op == Str)
  }

  predicate IsPairVector(insn: Insn) {
    insn.vector && (insn.op == Ldp || insn.op == Stp)
  }

  /** The transfer sizes the decoder sets. */
  predicate WellFormedInsn(insn: Insn) {
    IsMemory(insn.op) ==>
      if IsSingleVector(insn) then insn.size == 16
      else if IsPairVector(insn) then insn.size == 4 || insn.size == 8 || insn.size == 16
      else if IsPair(insn.op) then insn.size == 4 || insn.size == 8
      else TransferSize(insn.size)
  }

  /** A register offset: the low part, zero- or sign-extended, then shifted. */
  function Extended(v: u64, e: Extend, shift: nat): u64 {
    Pow256Values();
    var low := match e
      case Uxtb => v % 0x100
      case Uxth => v % 0x1_0000
      case Uxtw => v % TWO32
      case Sxtb => SignExtend(v % 0x100, 1)
      case Sxth => SignExtend(v % 0x1_0000, 2)
      case Sxtw => SignExtend(v % TWO32, 4)
      case _ => v;
    Wrap(low * Pow2(shift))
  }

  function Offset(r: Regs, insn: Insn): u64 {
    if insn.extend != Uxtb || insn.lsl then Extended(Read(r, insn.rm, false), insn.extend, insn.shift) else insn.imm
  }

  function Written(r: Regs, insn: Insn): u64 {
    Wrap(ReadBase(r, insn.rn) + Offset(r, insn))
  }

  /** LDR (literal): the immediate is the address, and there is no base to write back. */
  predicate IsLiteral(insn: Insn) {
    insn.literal && !IsPair(insn.op) && !IsSingleVector(insn)
  }

  function Address(r: Regs, insn: Insn): u64 {
    if IsLiteral(insn) then insn.imm
    else if insn.index == Post then ReadBase(r, insn.rn)
    else Written(r, insn)
  }

  /** Size of one bus access: sixteen-byte registers move as two halves. */
  function PieceSize(insn: Insn): nat {
    if insn.size == 16 then 8 else insn.size
  }

  function Halves(v: Vec, size: nat): seq<u64> {
    if size == 16 then [v.lo, v.hi] else [v.lo]
  }

  /** The memory access an instruction makes. */
  function AccessOf(r: Regs, insn: Insn): (a: BusAccess)
    requires IsMemory(insn.op) && WellFormedInsn(insn)
    ensures WellSized(a)
  {
    var addr := Address(r, insn);
    if insn.op == Ldxr then LoadExclusive(ReadBase(r, insn.rn), insn.size)
    else if insn.op == Stxr then StoreExclusive(ReadBase(r, insn.rn), insn.size, Read(r, insn.rd, insn.w32))
    else if IsPairVector(insn) then
      if insn.op == Stp then
        Stores(addr, PieceSize(insn), Halves(r.v[insn.rd], insn.size) + Halves(r.v[insn.rt2], insn.size), true)
      else Loads(addr, PieceSize(insn), if insn.size == 16 then 4 else 2)
    else if IsSingleVector(insn) then
      if insn.op == Str then Stores(addr, 8, Halves(r.v[insn.rd], 16), false) else Loads(addr, 8, 2)
    else if IsPair(insn.op) then
      if insn.op == Stp then Stores(addr, insn.size, [Read(r, insn.rd, insn.w32), Read(r, insn.rt2, insn.w32)], true)
      else Loads(addr, insn.size, 2)
    else if IsStore(insn.op) then Stores(addr, insn.size, [Read(r, insn.rd, insn.w32)], true)
    else Loads(addr, insn.size, 1)
  }

  /** What a load of piece `k` delivers. */
  function Fetched(m: Ram, addr: u64, k: nat, n: nat, signed: bool): (v: u64)
    requires TransferSize(n)
  {
    TransferFits(n);
    var bs := Bytes(m.data, Piece(addr, k, n), n);
    LittleEndianBound(bs);
    if signed then SignExtend(LittleEndian(bs), n) else LittleEndian(bs)
  }

  function AllFetched(m: Ram, addr: u64, count: nat, n: nat, signed: bool): (vs: seq<u64>)
    requires TransferSize(n)
    ensures |vs| == count
  {
    seq(count, k requires 0 <= k < count => Fetched(m, addr, k, n, signed))
  }

  /** The loaded pieces put into registers. */
  function Loaded(r: Regs, insn: Insn, vs: seq<u64>): Regs
    requires IsMemory(insn.op) && WellFormedInsn(insn) && AccessOf(r, insn).Loads? && |vs| == AccessOf(r, insn).count
  {
    if IsPairVector(insn) then
      if insn.size == 16 then r.(v := r.v[insn.rd := Vec(vs[0], vs[1])][insn.rt2 := Vec(vs[2], vs[3])])
      else r.(v := r.v[insn.rd := Vec(vs[0], 0)][insn.rt2 := Vec(vs[1], 0)])
    else if IsSingleVector(insn) then r.(v := r.v[insn.rd := Vec(vs[0], vs[1])])
    else if IsPair(insn.op) then Write(Write(r, insn.rd, insn.w32, vs[0]), insn.rt2, insn.w32, vs[1])
    else Write(r, insn.rd, insn.w32, vs[0])
  }

  predicate HasWriteback(insn: Insn) {
    insn.index != NoIndex && insn.op != Ldxr && insn.op != Stxr && !IsLiteral(insn)
  }

  /** How many pieces an access brings in, and whether they are sign-extended. */
  function LoadedPieces(a: BusAccess): nat {
    match a
    case Loads(_, _, count) => count
    case LoadExclusive(_, _) => 1
    case _ => 0
  }

  predicate Signs(insn: Insn) {
    insn.signed && !insn.vector && insn.op != Ldxr
  }

  /** The register file after a memory instruction that brought in the pieces `vs`; `stored` is whether an exclusive
      store took effect. */
  function Delivered(r: Regs, insn: Insn, vs: seq<u64>, stored: bool): Regs
    requires IsMemory(insn.op) && WellFormedInsn(insn) && |vs| == LoadedPieces(AccessOf(r, insn))
  {
    var done := match AccessOf(r, insn)
      case Loads(_, _, _) => Loaded(r, insn, vs)
      case Stores(_, _, _, _) => r
      case LoadExclusive(_, _) => Write(r, insn.rd, insn.w32, vs[0])
      case StoreExclusive(_, _, _) => Write(r, insn.rm, true, if stored then 0 else 1);
    if HasWriteback(insn) then WriteBase(done, insn.rn, Written(r, insn)) else done
  }

  /** The register file after a memory instruction that did not fault, from the memory it found. */
  function Retired(r: Regs, insn: Insn, m: Ram, stored: bool): Regs
    requires IsMemory(insn.op) && WellFormedInsn(insn)
  {
    var a := AccessOf(r, insn);
    Delivered(r, insn, AllFetched(m, a.addr, LoadedPieces(a), a.n, Signs(insn)), stored)
  }

  /** What an exclusive store tells the guest: 0 if the reservation stood, 1 if it did not; nothing else of the
      register file has moved, but perhaps the PC. */
  predicate StatusTells(r: Regs, r': Regs, insn: Insn, stood: bool) {
    && (insn.rm != 31 ==> r'.x[insn.rm] == if stood then 0 else 1)
    && (forall k :: 0 <= k < 31 && k != insn.rm ==> r'.x[k] == r.x[k])
    && r'.(x := r.x, pc := r.pc) == r
  }

  /** Did the reservation stand on exactly the range an exclusive store names? */
  predicate Stood(mon: Monitor, r: Regs, insn: Insn) {
    mon.valid && mon.addr == (if insn.rn == 31 then r.sp else r.x[insn.rn]) && mon.size == insn.size
  }

  lemma StatusMeans(r: Regs, insn: Insn, mon: Monitor)
    requires insn.op == Stxr && WellFormedInsn(insn)
    ensures
      var a := AccessOf(r, insn);
      && a == StoreExclusive(if insn.rn == 31 then r.sp else r.x[insn.rn], insn.size, Read(r, insn.rd, insn.w32))
      && (Stood(mon, r, insn) <==> Reserved(mon, a.addr, a.n))
      && StatusTells(r, Delivered(r, insn, [], Reserved(mon, a.addr, a.n)), insn, Stood(mon, r, insn))
      && forall m, stored :: Retired(r, insn, m, stored) == Delivered(r, insn, [], stored)
  {
    hide Address;
    forall m: Ram, stored: bool ensures Retired(r, insn, m, stored) == Delivered(r, insn, [], stored) {
      var a := AccessOf(r, insn);
      assert AllFetched(m, a.addr, LoadedPieces(a), a.n, Signs(insn)) == [];
    }
  }

  function ReadForm(r: Regs, n: RegNo, sp: bool, w32: bool): u64 {
    if sp then Narrow(ReadBase(r, n), w32) else Read(r, n, w32)
  }

  function WriteForm(r: Regs, n: RegNo, sp: bool, w32: bool, v: u64): Regs {
    if sp then WriteBase(r, n, Narrow(v, w32)) else Write(r, n, w32, v)
  }

  /** ADD, SUB and their flag-setting forms. */
  function AddSubResult(r: Regs, insn: Insn): Regs
    requires insn.op.AddSub?
  {
    var n := ReadForm(r, insn.rn, insn.op.rnSp, insn.w32);
    var sum := Alu.AddWithCarry(n, if insn.op.sub then TWO64 - 1 - insn.op.operand else insn.op.operand, insn.op.sub,
                               insn.w32);
    var w := WriteForm(r, insn.rd, insn.op.rdSp, insn.w32, sum.value);
    if insn.op.sets then w.(nzcv := sum.flags) else w
  }

  /** ADC, SBC and their flag-setting forms: the carry comes from the flags. */
  function AddCarryResult(r: Regs, insn: Insn): Regs
    requires insn.op.AddCarry?
  {
    var n, m := Read(r, insn.rn, insn.w32), Read(r, insn.rm, insn.w32);
    var sum := Alu.AddWithCarry(n, if insn.op.sub then TWO64 - 1 - m else m, r.nzcv.c, insn.w32);
    var w := Write(r, insn.rd, insn.w32, sum.value);
    if insn.op.sets then w.(nzcv := sum.flags) else w
  }

  function MulHighResult(r: Regs, insn: Insn): Regs
    requires insn.op.MulHigh?
  {
    var n, m := Read(r, insn.rn, false), Read(r, insn.rm, false);
    Write(r, insn.rd, false, if insn.op.signedForm then Alu.Smulh(n, m) else Alu.Umulh(n, m))
  }

  lemma PutThere(data: map<int, u8>, at: int, bs: seq<u8>)
    requires forall x {:trigger x in data} :: at <= x < at + |bs| ==> x in data
    ensures Bytes(Put(data, at, bs), at, |bs|) == bs
  {
  }

  /** What a run stored is what a run of the same shape then fetches, piece by piece. */
  lemma {:induction false} FetchedIsStored(m: Ram, addr: u64, n: nat, values: seq<u64>, k: nat)
    requires WellFormed(m) && TransferSize(n) && k < |values| && addr + n * |values| <= TWO64
    requires AllGranted(m.regions, addr, n, |values|, WRITE)
    ensures Fetched(StoreAll(m, addr, n, values), addr, k, n, false) == values[k] % Pow256(n)
  {
    hide ToBytes, LittleEndian, Covered, Piece;
    var last := |values| - 1;
    var before := StoreAll(m, addr, n, values[..last]);
    PieceInside(addr, k, n, |values|);
    PieceInside(addr, last, n, |values|);
    if k < last {
      assert n * last <= n * |values|;
      FetchedIsStored(m, addr, n, values[..last], k);
      PieceInside(addr, k, n, last);
      assert n * last == last * n;
      PutOutside(before.data, Piece(addr, last, n), ToBytes(values[last], n), Piece(addr, k, n), n);
    } else {
      StoreAllKeys(m, addr, n, values[..last]);
      assert Covered(m.regions, Piece(addr, last, n), n, WRITE);
      CoveredBytesMapped(m, Piece(addr, last, n), n, WRITE);
      PutThere(before.data, Piece(addr, last, n), ToBytes(values[last], n));
      LittleEndianRoundTrip(values[last], n);
    }
  }

  lemma SameAddress(r: Regs, store: Insn, load: Insn)
    requires store.op == Stp && load == store.(op := Ldp)
    ensures Address(r, load) == Address(r, store)
  {
    hide Extended;
  }

  /** The pieces a matching load fetches: the stored values, cut to the piece size. */
  lemma PiecesReturn(m: Ram, addr: u64, n: nat, values: seq<u64>)
    requires WellFormed(m) && TransferSize(n) && addr + n * |values| <= TWO64
    requires AllGranted(m.regions, addr, n, |values|, WRITE)
    ensures
      var vs := AllFetched(StoreAll(m, addr, n, values), addr, |values|, n, false);
      forall k :: 0 <= k < |values| ==> vs[k] == values[k] % Pow256(n)
  {
    hide StoreAll, Fetched, AllGranted, WellFormed, Pow256;
    var vs := AllFetched(StoreAll(m, addr, n, values), addr, |values|, n, false);
    forall k | 0 <= k < |values| ensures vs[k] == values[k] % Pow256(n) {
      FetchedIsStored(m, addr, n, values, k);
    }
  }

  lemma CutPiecesReturn(m: Ram, a: BusAccess)
    requires Storable(m, a) && TransferSize(a.n)
    ensures
      var vs := AllFetched(StoreAll(m, a.addr, a.n, a.values), a.addr, |a.values|, a.n, false);
      forall k :: 0 <= k < |a.values| ==> vs[k] == a.values[k] % Pow256(a.n)
  {
    hide StoreAll, AllFetched, AllGranted, WellFormed, Pow256;
    PiecesReturn(m, a.addr, a.n, a.values);
  }

  lemma SmallMod(v: nat, m: nat)
    requires v < m
    ensures v % m == v
  {
  }

  /** Values that fit their piece come back whole. */
  lemma WholePiecesReturn(m: Ram, a: BusAccess)
    requires Storable(m, a) && TransferSize(a.n) && forall k :: 0 <= k < |a.values| ==> a.values[k] < Pow256(a.n)
    ensures AllFetched(StoreAll(m, a.addr, a.n, a.values), a.addr, |a.values|, a.n, false) == a.values
  {
    hide StoreAll, AllFetched, AllGranted, WellFormed, Pow256;
    PiecesReturn(m, a.addr, a.n, a.values);
    var vs := AllFetched(StoreAll(m, a.addr, a.n, a.values), a.addr, |a.values|, a.n, false);
    forall k | 0 <= k < |vs| ensures vs[k] == a.values[k] {
      SmallMod(a.values[k], Pow256(a.n));
    }
  }

  /** The access of a pair store is granted, and its range does not wrap. */
  ghost predicate Storable(m: Ram, a: BusAccess) {
    && WellFormed(m) && a.Stores? && a.addr + a.n * |a.values| <= TWO64
    && AllGranted(m.regions, a.addr, a.n, |a.values|, WRITE)
  }

  /** STP then LDP of the same pair gives both registers back, each in its own place, at either width. */
  lemma StorePairLoadPair(r: Regs, store: Insn, load: Insn, m: Ram)
    requires WellFormedInsn(store) && store.op == Stp && !store.vector && store.w32 == (store.size == 4)
    requires load == store.(op := Ldp) && !store.signed && store.index == NoIndex && Storable(m, AccessOf(r, store))
    ensures
      var a := AccessOf(r, store);
      var after := Retired(r, load, StoreAll(m, a.addr, a.n, a.values), false);
      && Read(after, store.rd, store.w32) == Read(r, store.rd, store.w32)
      && Read(after, store.rt2, store.w32) == Read(r, store.rt2, store.w32)
  {
    hide StoreAll, AllFetched, Storable, Address, Pow256;
    var a := AccessOf(r, store);
    SameAddress(r, store, load);
    Pow256Values();
    WholePiecesReturn(m, a);
  }

  /** What a vector register keeps of itself through memory at a size. */
  function Kept(v: Vec, size: nat): Vec
    requires size == 4 || size == 8 || size == 16
  {
    if size == 16 then v else Vec(v.lo % Pow256(size), 0)
  }

  /** The same for a pair of vector registers at every size; the narrow forms keep the low part and clear the rest. */
  lemma StoreVectorsLoadVectors(r: Regs, store: Insn, load: Insn, m: Ram)
    requires WellFormedInsn(store) && store.op == Stp && store.vector
    requires load == store.(op := Ldp) && store.index == NoIndex && Storable(m, AccessOf(r, store))
    ensures
      var a := AccessOf(r, store);
      var after := Retired(r, load, StoreAll(m, a.addr, a.n, a.values), false);
      after.v[store.rd] == Kept(r.v[store.rd], store.size) && after.v[store.rt2] == Kept(r.v[store.rt2], store.size)
  {
    hide StoreAll, AllFetched, Storable, Address, Pow256;
    var a := AccessOf(r, store);
    SameAddress(r, store, load);
    CutPiecesReturn(m, a);
    if store.size == 16 {
      Pow256Values();
      forall k | 0 <= k < 4 ensures a.values[k] % Pow256(8) == a.values[k] {
        SmallMod(a.values[k], Pow256(8));
      }
    }
  }

  /** A push: STP pre-indexed by a plain immediate, at full width. */
  predicate IsPush(insn: Insn) {
    && WellFormedInsn(insn) && insn.op == Stp && insn.index == Pre && insn.extend == Uxtb && !insn.lsl && !insn.signed
    && if insn.vector then insn.size == 16 else insn.size == 8 && !insn.w32
  }

  /** The pop that answers it: LDP post-indexed by the opposite immediate. */
  function PopOf(push: Insn): Insn {
    push.(op := Ldp, index := Post, imm := Wrap(TWO64 - push.imm))
  }

  lemma UndoWrap(base: u64, imm: u64)
    ensures Wrap(Wrap(base + imm) + Wrap(TWO64 - imm)) == base
  {
  }

  /** A push moves the base register and nothing else. */
  lemma PushMoves(r: Regs, push: Insn, m: Ram)
    requires IsPush(push)
    ensures Retired(r, push, m, true) == WriteBase(r, push.rn, Written(r, push))
    ensures AccessOf(r, push).addr == Written(r, push) == Wrap(ReadBase(r, push.rn) + push.imm)
  {
    hide AllFetched, Wrap;
  }

  /** The pop finds the pair at its new base, and puts the old one back. */
  lemma PopAddress(r: Regs, push: Insn)
    requires IsPush(push)
    ensures
      var pushed := WriteBase(r, push.rn, Written(r, push));
      && AccessOf(pushed, PopOf(push)).addr == AccessOf(r, push).addr
      && Written(pushed, PopOf(push)) == ReadBase(r, push.rn)
  {
    hide AllFetched, Wrap, Written, AccessOf;
    PushMoves(r, push, Ram([], map[]));
    UndoWrap(ReadBase(r, push.rn), push.imm);
    PopOffset(WriteBase(r, push.rn, Written(r, push)), push);
  }

  lemma PopOffset(pushed: Regs, push: Insn)
    requires IsPush(push)
    ensures AccessOf(pushed, PopOf(push)).addr == ReadBase(pushed, push.rn)
    ensures Written(pushed, PopOf(push)) == Wrap(ReadBase(pushed, push.rn) + Wrap(TWO64 - push.imm))
  {
    hide Wrap;
  }

  /** Push then pop, of general or vector registers, gives the whole register file back: the pair, the base register,
      and everything else -- whatever registers are named, the base among them or one twice. */
  lemma PushThenPop(r: Regs, push: Insn, m: Ram)
    requires IsPush(push) && Storable(m, AccessOf(r, push))
    ensures
      var a := AccessOf(r, push);
      Retired(Retired(r, push, m, true), PopOf(push), StoreAll(m, a.addr, a.n, a.values), false) == r
  {
    hide StoreAll, AllFetched, Storable, Address, Written, Pow256;
    var a := AccessOf(r, push);
    PushMoves(r, push, m);
    PopAddress(r, push);
    Pow256Values();
    WholePiecesReturn(m, a);
  }
}
