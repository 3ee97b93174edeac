/** What the user-mode instructions mean to a guest, in registers, exact integers and bytes. */
module InstructionMeaning {
  import opened Words
  import opened FlatMemory
  import opened ExclusiveMonitor
  import opened RegisterFile
  import opened Executor
  import Alu

  /** A source register: 31 is the stack pointer in the SP forms and zero in the others. */
  function Source(r: Regs, n: RegNo, sp: bool, w32: bool): nat {
    (if n < 31 then r.x[n] else if sp then r.sp else 0) % (if w32 then 0x1_0000_0000 else 0x1_0000_0000_0000_0000)
  }

  /** `r'` is `r` with `value` in its destination and the PC moved on: 31 is the stack pointer or nothing. */
  predicate Puts(r: Regs, r': Regs, n: RegNo, sp: bool, value: u64) {
    && (if n < 31 then r'.x == r.x[n := value] else r'.x == r.x)
    && r'.sp == (if n == 31 && sp then value else r.sp)
    && r'.v == r.v && r'.tpidr == r.tpidr && r'.pc == (r.pc + 4) % 0x1_0000_0000_0000_0000
  }

  /** Does the signed value fit a word of modulus `m`? */
  predicate Fits(s: int, m: int) {
    -m <= 2 * s < m
  }

  function Size(w32: bool): (m: int)
    ensures m > 0
  {
    if w32 then 0x1_0000_0000 else 0x1_0000_0000_0000_0000
  }

  /** N, Z, C and V of an addition or subtraction with that word, carry and exact signed result. */
  predicate FlagsTell(f: Alu.Nzcv, value: int, carry: bool, exact: int, m: int) {
    (f.n <==> 2 * value >= m) && (f.z <==> value == 0) && (f.c <==> carry) && (f.v <==> !Fits(exact, m))
  }

  lemma AdderMeans(x: u64, y: u64, carryIn: bool, w32: bool)
    ensures
      var m, k := Size(w32), if carryIn then 1 else 0;
      var a, b := x % m, y % m;
      var sum := Alu.AddWithCarry(x, y, carryIn, w32);
      && sum.value == (a + b + k) % m && sum.value < m
      && FlagsTell(sum.flags, sum.value, a + b + k >= m, Signed(a, m) + Signed(b, m) + k, m)
  {
    hide Alu.AddWithCarry, Size, Alu.Modulus, Alu.Truncate, Signed, Alu.SignedWord, Alu.FitsSigned, Fits;
    Alu.AdderIsExact(x, y, carryIn, w32);
    Widths(x, w32);
    Widths(y, w32);
    var m := Size(w32);
    var sum := Alu.AddWithCarry(x, y, carryIn, w32);
    Halves(sum.value, w32);
    ModUnique(x % m + y % m + Alu.Unit(carryIn), m, Alu.Unit(sum.flags.c), sum.value);
  }

  lemma Widths(x: u64, w32: bool)
    ensures Alu.Modulus(w32) == Size(w32) && Alu.Truncate(x, w32) == x % Size(w32)
    ensures forall v :: Alu.SignedWord(v, w32) == Signed(v, Size(w32))
    ensures forall s :: Alu.FitsSigned(s, w32) <==> Fits(s, Size(w32))
  {
  }

  lemma Halves(v: int, w32: bool)
    requires 0 <= v < Size(w32)
    ensures Signed(v, Size(w32)) < 0 <==> 2 * v >= Size(w32)
  {
  }

  lemma Complement(y: u64, w32: bool)
    ensures
      var m := Size(w32);
      && (TWO64 - 1 - y) % m == m - 1 - y % m
      && Signed(m - 1 - y % m, m) == -1 - Signed(y % m, m)
  {
    if w32 {
      Alu.ComplementNarrow(y);
    }
  }

  lemma SubtracterMeans(x: u64, y: u64, carryIn: bool, w32: bool)
    ensures
      var m, k := Size(w32), if carryIn then 0 else 1;
      var a, b := x % m, y % m;
      var sum := Alu.AddWithCarry(x, TWO64 - 1 - y, carryIn, w32);
      && sum.value == (a - b - k) % m && sum.value < m
      && FlagsTell(sum.flags, sum.value, a >= b + k, Signed(a, m) - Signed(b, m) - k, m)
  {
    hide Alu.AddWithCarry, Signed, Size, FlagsTell;
    var m, k := Size(w32), if carryIn then 0 else 1;
    var a, b, sum := x % m, y % m, Alu.AddWithCarry(x, TWO64 - 1 - y, carryIn, w32);
    AdderMeans(x, TWO64 - 1 - y, carryIn, w32);
    Complement(y, w32);
    Borrows(sum, a, b, k, m);
  }

  lemma Borrows(sum: Alu.Sum, a: int, b: int, k: int, m: int)
    requires m > 0 && Signed(m - 1 - b, m) == -1 - Signed(b, m)
    requires sum.value == (a + (m - 1 - b) + (1 - k)) % m
    requires FlagsTell(sum.flags, sum.value, a + (m - 1 - b) + (1 - k) >= m,
                       Signed(a, m) + Signed(m - 1 - b, m) + (1 - k), m)
    ensures sum.value == (a - b - k) % m
    ensures FlagsTell(sum.flags, sum.value, a >= b + k, Signed(a, m) - Signed(b, m) - k, m)
  {
    hide Signed;
    assert a + (m - 1 - b) + (1 - k) == a - b - k + m;
    SameResidue(a - b - k, m);
  }

  lemma SameResidue(v: int, m: int)
    requires m > 0
    ensures (v + m) % m == v % m
  {
    ModUnique(v + m, m, v / m + 1, v % m);
  }

  lemma SourceIsRead(r: Regs, n: RegNo, sp: bool, w32: bool)
    ensures Source(r, n, sp, w32) == ReadForm(r, n, sp, w32) && (!sp ==> Source(r, n, sp, w32) == Read(r, n, w32))
    ensures Source(r, n, sp, w32) % Size(w32) == Source(r, n, sp, w32)
  {
  }

  /** ADD, ADDS, SUB and SUBS. */
  lemma AddSubMeans(r: Regs, insn: Insn)
    requires insn.op.AddSub?
    ensures
      var m, op, r' := Size(insn.w32), insn.op, Effect(r, insn);
      var a, b := Source(r, insn.rn, op.rnSp, insn.w32), op.operand % m;
      var value := if op.sub then (a - b) % m else (a + b) % m;
      var exact := if op.sub then Signed(a, m) - Signed(b, m) else Signed(a, m) + Signed(b, m);
      && Puts(r, r', insn.rd, op.rdSp, value)
      && if op.sets then FlagsTell(r'.nzcv, value, if op.sub then a >= b else a + b >= m, exact, m)
         else r'.nzcv == r.nzcv
  {
    hide Alu.AddWithCarry, FlagsTell, Effect, Puts, Source, ReadForm, Size, Signed;
    var op := insn.op;
    var x := ReadForm(r, insn.rn, op.rnSp, insn.w32);
    SourceIsRead(r, insn.rn, op.rnSp, insn.w32);
    if op.sub {
      SubtracterMeans(x, op.operand, true, insn.w32);
    } else {
      AdderMeans(x, op.operand, false, insn.w32);
    }
    AddSubPuts(r, insn);
  }

  lemma AddSubPuts(r: Regs, insn: Insn)
    requires insn.op.AddSub?
    ensures
      var op, r' := insn.op, Effect(r, insn);
      var x := ReadForm(r, insn.rn, op.rnSp, insn.w32);
      var sum := Alu.AddWithCarry(x, if op.sub then TWO64 - 1 - op.operand else op.operand, op.sub, insn.w32);
      && (sum.value < Size(insn.w32) ==> Puts(r, r', insn.rd, op.rdSp, sum.value))
      && r'.nzcv == (if op.sets then sum.flags else r.nzcv)
  {
    hide Alu.AddWithCarry;
  }

  /** ADC, ADCS, SBC and SBCS: the carry flag goes in, and a subtraction borrows when it is clear. */
  lemma AddCarryMeans(r: Regs, insn: Insn)
    requires insn.op.AddCarry?
    ensures
      var m, op, r' := Size(insn.w32), insn.op, Effect(r, insn);
      var a, b := Source(r, insn.rn, false, insn.w32), Source(r, insn.rm, false, insn.w32);
      var c := if r.nzcv.c then 1 else 0;
      var value := if op.sub then (a - b - (1 - c)) % m else (a + b + c) % m;
      var exact := if op.sub then Signed(a, m) - Signed(b, m) - (1 - c) else Signed(a, m) + Signed(b, m) + c;
      && Puts(r, r', insn.rd, false, value)
      && if op.sets then FlagsTell(r'.nzcv, value, if op.sub then a >= b + (1 - c) else a + b + c >= m, exact, m)
         else r'.nzcv == r.nzcv
  {
    hide Alu.AddWithCarry, FlagsTell, Effect, Puts, Source, Read, Size, Signed;
    var x, y := Read(r, insn.rn, insn.w32), Read(r, insn.rm, insn.w32);
    SourceIsRead(r, insn.rn, false, insn.w32);
    SourceIsRead(r, insn.rm, false, insn.w32);
    if insn.op.sub {
      SubtracterMeans(x, y, r.nzcv.c, insn.w32);
    } else {
      AdderMeans(x, y, r.nzcv.c, insn.w32);
    }
    AddCarryPuts(r, insn);
  }

  lemma AddCarryPuts(r: Regs, insn: Insn)
    requires insn.op.AddCarry?
    ensures
      var op, r' := insn.op, Effect(r, insn);
      var x, y := Read(r, insn.rn, insn.w32), Read(r, insn.rm, insn.w32);
      var sum := Alu.AddWithCarry(x, if op.sub then TWO64 - 1 - y else y, r.nzcv.c, insn.w32);
      && (sum.value < Size(insn.w32) ==> Puts(r, r', insn.rd, false, sum.value))
      && r'.nzcv == (if op.sets then sum.flags else r.nzcv)
  {
    hide Alu.AddWithCarry;
  }

  /** The high 64 bits of the exact 128-bit product. */
  function HighWord(a: u64, b: u64, signedForm: bool): u64 {
    (if signedForm then Signed(a, TWO64) * Signed(b, TWO64) else a * b)
    / 0x1_0000_0000_0000_0000 % 0x1_0000_0000_0000_0000
  }

  lemma HighWords(a: u64, b: u64)
    ensures Alu.Umulh(a, b) == HighWord(a, b, false) && Alu.Smulh(a, b) == HighWord(a, b, true)
  {
    hide Alu.Umulh, Alu.Smulh, Signed;
    Alu.UmulhIsExact(a, b);
    Alu.SmulhIsExact(a, b);
    assert Alu.Umulh(a, b) == a * b / TWO64;
    SmallMod(a * b / TWO64, TWO64);
  }

  /** UMULH and SMULH: the high word of the exact product. */
  lemma MulHighMeans(r: Regs, insn: Insn)
    requires insn.op.MulHigh?
    ensures
      var a, b, r' := Source(r, insn.rn, false, false), Source(r, insn.rm, false, false), Effect(r, insn);
      Puts(r, r', insn.rd, false, HighWord(a, b, insn.op.signedForm)) && r'.nzcv == r.nzcv
  {
    hide Alu.Umulh, Alu.Smulh, Source, Read, HighWord;
    var a, b := Read(r, insn.rn, false), Read(r, insn.rm, false);
    SourceIsRead(r, insn.rn, false, false);
    SourceIsRead(r, insn.rm, false, false);
    HighWords(a, b);
  }

  /** BL and BLR leave the address after themselves in X30; a plain branch leaves no register changed. */
  lemma BranchMeans(r: Regs, insn: Insn)
    requires insn.op.Branch?
    ensures
      var r' := Effect(r, insn);
      && r'.pc == insn.op.target && r'.(pc := r.pc, x := r.x) == r
      && r'.x == if insn.op.link then r.x[30 := (r.pc + 4) % 0x1_0000_0000_0000_0000] else r.x
  {
  }

  /** A host system call answers in X0; a general register copied to a vector fills its low half; a data-processing form
      puts its result, cut to its width, in its register, and its flags if it has any; and all of these, the adds, the
      multiplies, branches and barriers complete, where refused and trapped instructions do not. */
  lemma OthersMean(r: Regs, insn: Insn)
    requires !IsMemory(insn.op)
    ensures
      match insn.op
      case Svc(answer) =>
        (Performs(r, insn.op) <==> answer.Some?) && (answer.Some? ==> Puts(r, Effect(r, insn), 0, false, answer.value))
      case CopyToVector =>
        && Performs(r, insn.op)
        && Effect(r, insn) == r.(pc := (r.pc + 4) % 0x1_0000_0000_0000_0000,
                                 v := r.v[insn.rd := Vec(Source(r, insn.rm, false, false), 0)])
      case Compute(value, flags) =>
        && Performs(r, insn.op) && Puts(r, Effect(r, insn), insn.rd, false, value % Size(insn.w32))
        && Effect(r, insn).nzcv == if flags.Some? then flags.value else r.nzcv
      case Nop => Performs(r, insn.op) && Effect(r, insn) == r.(pc := (r.pc + 4) % 0x1_0000_0000_0000_0000)
      case Refused => !Performs(r, insn.op)
      case Trapped => !Performs(r, insn.op)
      case Mrs(_) => true
      case Msr(_) => true
      case _ => Performs(r, insn.op)
  {
  }

  predicate UserSel(sel: int) {
    sel == 0x208 || sel == 0x1A10 || sel == 0x1E87
  }

  lemma WriteThenRead(r: Regs, sel: int, v: u64, pc: u64)
    requires UserSel(sel)
    ensures UserRead(UserWrite(r, sel, v).(pc := pc), sel)
         == Some(if sel == 0x1A10 then v / 0x1000_0000 % 16 * 0x1000_0000 else v)
    ensures UserWrite(r, sel, v).x == r.x && UserWrite(r, sel, v).v == r.v && UserWrite(r, sel, v).pc == r.pc
    ensures UserWritable(sel)
  {
    hide FlagsWord, WordFlags;
    if sel == 0x1A10 {
      FlagBits(v);
    }
  }

  /** MSR then MRS of SP_EL0, NZCV or the thread register gives the written register back (of NZCV its four flag bits);
      CurrentEL and TPIDRRO_EL0 read 0 and cannot be written; nothing else is there. */
  lemma UserRegisters(r: Regs, msr: Insn, mrs: Insn)
    requires msr.op.Msr? && mrs.op.Mrs? && msr.op.into == mrs.op.from
    ensures
      var sel, v := msr.op.into, Source(r, msr.rd, false, false);
      if UserSel(sel) then
        && Performs(r, msr.op) && Performs(Effect(r, msr), mrs.op)
        && Effect(r, msr).x == r.x
        && Effect(Effect(r, msr), mrs).x ==
             With(r, mrs.rd, if sel == 0x1A10 then v / 0x1000_0000 % 16 * 0x1000_0000 else v).x
      else
        && !Performs(r, msr.op) && (Performs(r, mrs.op) <==> sel == 0x212 || sel == 0x1E83)
        && (Performs(r, mrs.op) ==> Puts(r, Effect(r, mrs), mrs.rd, false, 0))
  {
    hide FlagsWord, WordFlags, Source, Read, UserRead, UserWrite;
    var sel := msr.op.into;
    SourceIsRead(r, msr.rd, false, false);
    if UserSel(sel) {
      WriteThenRead(r, sel, Read(r, msr.rd, false), Wrap(r.pc + 4));
    } else {
      NoOthers(r, sel);
    }
  }

  lemma NoOthers(r: Regs, sel: int)
    requires !UserSel(sel)
    ensures !UserWritable(sel) && UserRead(r, sel) == if sel == 0x212 || sel == 0x1E83 then Some(0) else None
  {
  }

  lemma FlagBits(v: u64)
    ensures FlagsWord(WordFlags(v)) == v / 0x1000_0000 % 16 * 0x1000_0000
  {
    FourBits(v / 0x1000_0000);
  }

  lemma FourBits(f: nat)
    ensures f % 16 == 8 * (f / 8 % 2) + 4 * (f / 4 % 2) + 2 * (f / 2 % 2) + f % 2
  {
    var a := f / 2;
    var b := a / 2;
    var c := b / 2;
    assert f / 4 == b && f / 8 == c;
    assert f == 16 * (c / 2) + (8 * (c % 2) + 4 * (b % 2) + 2 * (a % 2) + f % 2);
    ModUnique(f, 16, c / 2, 8 * (c % 2) + 4 * (b % 2) + 2 * (a % 2) + f % 2);
  }

  /** NZCV by bit number: N is 31, Z 30, C 29, V 28. */
  lemma FlagPlaces(f: Alu.Nzcv)
    ensures
      var w := FlagsWord(f);
      && Bit(w, 0x8000_0000) == f.n && Bit(w, 0x4000_0000) == f.z && Bit(w, 0x2000_0000) == f.c
      && Bit(w, 0x1000_0000) == f.v && w % 0x1000_0000 == 0 && w < 0x1_0000_0000
  {
  }

  /** Which instructions move memory, which of them store, and in which sizes the decoder gives them. */
  lemma FormsAre(insn: Insn)
    ensures IsMemory(insn.op) <==>
            match insn.op
            case Ldr | Str | Ldrs | Ldar | Stlr | Ldp | Stp | Ldpsw | Ldxr | Stxr => true
            case _ => false
    ensures IsStore(insn.op) <==>
            match insn.op
            case Str | Stlr | Stp | Stxr => true
            case _ => false
    ensures IsSingleVector(insn) <==> insn.vector && (insn.op == Ldr || insn.op == Str)
    ensures IsMemory(insn.op) ==>
              (WellFormedInsn(insn) <==>
                 match insn.op
                 case Ldr | Str => if insn.vector then insn.size == 16 else insn.size in {1, 2, 4, 8}
                 case Ldp | Stp => if insn.vector then insn.size in {4, 8, 16} else insn.size in {4, 8}
                 case Ldpsw => insn.size in {4, 8}
                 case _ => insn.size in {1, 2, 4, 8})
  {
  }

  // ----- addresses -----

  /** The value of an extended register: its low byte, half, word or whole, as unsigned or signed. */
  function ExtendedValue(v: u64, e: Extend): int {
    match e
    case Uxtb => v % 0x100
    case Uxth => v % 0x1_0000
    case Uxtw => v % 0x1_0000_0000
    case Sxtb => if v % 0x100 < 0x80 then v % 0x100 else v % 0x100 - 0x100
    case Sxth => if v % 0x1_0000 < 0x8000 then v % 0x1_0000 else v % 0x1_0000 - 0x1_0000
    case Sxtw => if v % 0x1_0000_0000 < 0x8000_0000 then v % 0x1_0000_0000 else v % 0x1_0000_0000 - 0x1_0000_0000
    case _ => v
  }

  /** A register offset is the extended register times its scale, modulo 2^64. */
  lemma ExtendedMeans(v: u64, e: Extend, shift: nat)
    ensures Extended(v, e, shift) == ExtendedValue(v, e) * Pow2(shift) % 0x1_0000_0000_0000_0000
    ensures Pow2(0) == 1 && Pow2(1) == 2 && Pow2(2) == 4 && Pow2(3) == 8 && Pow2(4) == 16
  {
    hide Pow2;
    Pow256Values();
    assert Pow2(0) == 1 && Pow2(1) == 2 && Pow2(2) == 4 && Pow2(3) == 8 && Pow2(4) == 16 by { SmallPowers(); }
    var s := ExtendedValue(v, e);
    if s < 0 {
      ScaledResidue(s, Pow2(shift));
    }
  }

  lemma SmallPowers()
    ensures Pow2(0) == 1 && Pow2(1) == 2 && Pow2(2) == 4 && Pow2(3) == 8 && Pow2(4) == 16
  {
    assert Pow2(3) == 8;
  }

  lemma ScaledResidue(s: int, p: nat)
    ensures (s + TWO64) * p % TWO64 == s * p % TWO64
  {
    assert (s + TWO64) * p == s * p + p * TWO64;
    ModUnique(s * p + p * TWO64, TWO64, s * p / TWO64 + p, s * p % TWO64);
  }

  /** A single transfer of a general register that completed, found where the guest's own arithmetic puts it. */
  predicate IsGeneral(insn: Insn) {
    && WellFormedInsn(insn) && !insn.vector
    && (insn.op == Ldr || insn.op == Ldrs || insn.op == Ldar || insn.op == Str || insn.op == Stlr)
  }

  function OffsetOf(r: Regs, insn: Insn): int {
    if insn.extend == Uxtb && !insn.lsl then insn.imm
    else ExtendedValue(Source(r, insn.rm, false, false), insn.extend) * Pow2(insn.shift)
  }

  function Place(r: Regs, insn: Insn): int {
    if insn.literal then insn.imm
    else if insn.index == Post then Source(r, insn.rn, true, false)
    else (Source(r, insn.rn, true, false) + OffsetOf(r, insn)) % 0x1_0000_0000_0000_0000
  }

  function Moved(r: Regs, insn: Insn): int {
    (Source(r, insn.rn, true, false) + OffsetOf(r, insn)) % 0x1_0000_0000_0000_0000
  }

  lemma OffsetIs(r: Regs, insn: Insn)
    ensures Offset(r, insn) == OffsetOf(r, insn) % 0x1_0000_0000_0000_0000
  {
    hide Extended, ExtendedValue, Pow2, Source, Read;
    SourceIsRead(r, insn.rm, false, false);
    ExtendedMeans(Source(r, insn.rm, false, false), insn.extend, insn.shift);
  }

  lemma PlaceIsAddress(r: Regs, insn: Insn)
    requires IsGeneral(insn)
    ensures Place(r, insn) == Address(r, insn) && Moved(r, insn) == Written(r, insn)
  {
    hide OffsetOf, Offset;
    assert Source(r, insn.rn, true, false) == ReadBase(r, insn.rn);
    OffsetIs(r, insn);
    AddResidue(ReadBase(r, insn.rn), OffsetOf(r, insn));
  }

  lemma AddResidue(a: int, b: int)
    ensures (a + b % TWO64) % TWO64 == (a + b) % TWO64
  {
    ModUnique(a + b, TWO64, b / TWO64 + (a + b % TWO64) / TWO64, (a + b % TWO64) % TWO64);
  }

  /** The registers of the base alone moved, as the index mode says: writeback comes after the transfer and wins. */
  predicate BaseMoves(before: Regs, r: Regs, r': Regs, insn: Insn) {
    if insn.index == NoIndex || insn.literal then r' == before.(pc := r'.pc)
    else if insn.rn == 31 then r' == before.(sp := Moved(r, insn), pc := r'.pc)
    else r' == before.(x := before.x[insn.rn := Moved(r, insn)], pc := r'.pc)
  }

  /** `r` with a general register set, register 31 being nothing. */
  function With(r: Regs, n: RegNo, value: u64): Regs {
    if n == 31 then r else r.(x := r.x[n := value])
  }

  /** The bytes of memory at an address, as the number they are. */
  function Number(m: Ram, addr: u64, n: nat): nat {
    LittleEndian(Bytes(m.data, addr, n))
  }

  /** What a load of `n` bytes delivers to a register of its width. */
  function Delivers(raw: nat, n: nat, signed: bool, w32: bool): u64 {
    (if signed then Signed(raw, Pow256(n)) else raw) % (if w32 then 0x1_0000_0000 else 0x1_0000_0000_0000_0000)
  }

  lemma NarrowIs(raw: nat, n: nat, signed: bool, w32: bool)
    requires TransferSize(n) && raw < Pow256(n) <= TWO64
    ensures Narrow(if signed then SignExtend(raw, n) else raw, w32) == Delivers(raw, n, signed, w32)
  {
    Pow256Values();
  }

  lemma FetchedIs(m: Ram, addr: u64, k: nat, n: nat, signed: bool, w32: bool)
    requires TransferSize(n)
    ensures Narrow(Fetched(m, addr, k, n, signed), w32) == Delivers(Number(m, Piece(addr, k, n), n), n, signed, w32)
  {
    hide Narrow, Delivers, SignExtend, LittleEndian, Piece, Bytes;
    TransferFits(n);
    LittleEndianBound(Bytes(m.data, Piece(addr, k, n), n));
    NarrowIs(Number(m, Piece(addr, k, n), n), n, signed, w32);
  }

  /** LDR, LDRS and LDAR of a general register: it holds the number in memory, sign-extended if asked and cut to its
      width, and the base has moved as the index mode says -- after the load, so over it where they are one. */
  lemma LoadMeans(r: Regs, insn: Insn, m: Ram)
    requires IsGeneral(insn) && !IsStore(insn.op)
    ensures
      var value := Delivers(Number(m, Place(r, insn), insn.size), insn.size, insn.signed, insn.w32);
      && Retired(r, insn, m, false).pc == r.pc
      && BaseMoves(With(r, insn.rd, value), r, Retired(r, insn, m, false), insn)
  {
    hide Place, Moved, Fetched, Delivers, Number, Address, Written, Narrow;
    PlaceIsAddress(r, insn);
    var addr := Address(r, insn);
    assert Piece(addr, 0, insn.size) == addr;
    FetchedIs(m, addr, 0, insn.size, insn.signed, insn.w32);
  }

  /** STR and STLR of a general register: its low bytes are in memory where it was stored, least significant first, no
      other byte has changed, and of the registers only the base has moved. */
  lemma StoreMeans(r: Regs, insn: Insn, w: World)
    requires IsGeneral(insn) && IsStore(insn.op) && WellFormed(w.ram)
    requires Perform(w, AccessOf(r, insn)).1.status == OK
    ensures
      var m', addr := Perform(w, AccessOf(r, insn)).0.ram, Place(r, insn);
      && Bytes(m'.data, addr, insn.size) == ToBytes(Source(r, insn.rd, false, insn.w32), insn.size)
      && m'.data.Keys == w.ram.data.Keys && m'.regions == w.ram.regions
      && (forall x :: x in w.ram.data && !(addr <= x < addr + insn.size) ==> m'.data[x] == w.ram.data[x])
      && BaseMoves(r, r, Retired(r, insn, w.ram, true), insn)
  {
    hide Place, Moved, Address, Written, ToBytes, Covered, WellFormed, Source, Read;
    PlaceIsAddress(r, insn);
    SourceIsRead(r, insn.rd, false, insn.w32);
    var addr, v := Address(r, insn), Read(r, insn.rd, insn.w32);
    assert Piece(addr, 0, insn.size) == addr && [v][..0] == [];
    assert StoreAll(w.ram, addr, insn.size, [v]).data == Put(w.ram.data, addr, ToBytes(v, insn.size));
    assert Covered(w.ram.regions, Piece(addr, 0, insn.size), insn.size, WRITE);
    CoveredBytesMapped(w.ram, addr, insn.size, WRITE);
    PutThere(w.ram.data, addr, ToBytes(v, insn.size));
  }

  /** STP: the first register at the address, the second right after it. */
  lemma StorePairMeans(r: Regs, insn: Insn, w: World)
    requires WellFormedInsn(insn) && insn.op == Stp && !insn.vector && Storable(w.ram, AccessOf(r, insn))
    ensures
      var m', addr := Perform(w, AccessOf(r, insn)).0.ram, Address(r, insn);
      && Perform(w, AccessOf(r, insn)).1.status == OK && addr + insn.size < TWO64
      && Number(m', addr, insn.size) == Source(r, insn.rd, false, insn.w32) % Pow256(insn.size)
      && Number(m', addr + insn.size, insn.size) == Source(r, insn.rt2, false, insn.w32) % Pow256(insn.size)
  {
    hide Address, Pow256, StoreAll, Source, Read, LittleEndian, Bytes, WellFormed, Covered;
    SourceIsRead(r, insn.rd, false, insn.w32);
    SourceIsRead(r, insn.rt2, false, insn.w32);
    var a := AccessOf(r, insn);
    PieceInside(a.addr, 0, a.n, 2);
    PieceInside(a.addr, 1, a.n, 2);
    FetchedIsStored(w.ram, a.addr, a.n, a.values, 0);
    FetchedIsStored(w.ram, a.addr, a.n, a.values, 1);
  }

  /** LDP and LDPSW: the first register from the address, the second from right after it, loaded in that order. */
  lemma LoadPairMeans(r: Regs, insn: Insn, m: Ram)
    requires WellFormedInsn(insn) && (insn.op == Ldp || insn.op == Ldpsw) && !insn.vector
    ensures
      var n, addr := insn.size, Address(r, insn);
      var first := Delivers(Number(m, addr, n), n, insn.signed, insn.w32);
      var second := Delivers(Number(m, (addr + n) % 0x1_0000_0000_0000_0000, n), n, insn.signed, insn.w32);
      BaseOver(With(With(r, insn.rd, first), insn.rt2, second), r, Retired(r, insn, m, false), insn)
  {
    hide Address, Written, Fetched, Delivers, Number, Narrow;
    var addr := Address(r, insn);
    assert Piece(addr, 0, insn.size) == addr && Piece(addr, 1, insn.size) == (addr + insn.size) % TWO64;
    FetchedIs(m, addr, 0, insn.size, insn.signed, insn.w32);
    FetchedIs(m, addr, 1, insn.size, insn.signed, insn.w32);
  }

  /** As `BaseMoves`, for the pair forms. */
  predicate BaseOver(before: Regs, r: Regs, r': Regs, insn: Insn) {
    if insn.index == NoIndex then r' == before
    else if insn.rn == 31 then r' == before.(sp := Written(r, insn))
    else r' == before.(x := before.x[insn.rn := Written(r, insn)])
  }

  /** The sixteen-byte vector stores: each register low half first, of a pair the first register first. */
  lemma StoreVectorMeans(r: Regs, insn: Insn, w: World)
    requires WellFormedInsn(insn) && insn.vector && insn.size == 16 && (insn.op == Str || insn.op == Stp)
    requires Storable(w.ram, AccessOf(r, insn))
    ensures
      var m', addr := Perform(w, AccessOf(r, insn)).0.ram, Address(r, insn);
      && Perform(w, AccessOf(r, insn)).1.status == OK && addr + 16 <= TWO64
      && Number(m', addr, 8) == r.v[insn.rd].lo && Number(m', addr + 8, 8) == r.v[insn.rd].hi
      && (insn.op == Stp ==>
            && addr + 32 <= TWO64
            && Number(m', addr + 16, 8) == r.v[insn.rt2].lo && Number(m', addr + 24, 8) == r.v[insn.rt2].hi)
  {
    hide Address, Pow256, StoreAll, Number, WellFormed, AllGranted, ToBytes;
    var a := AccessOf(r, insn);
    WordStored(w.ram, a, 0);
    WordStored(w.ram, a, 1);
    if insn.op == Stp {
      WordStored(w.ram, a, 2);
      WordStored(w.ram, a, 3);
    }
  }

  lemma WordStored(m: Ram, a: BusAccess, k: nat)
    requires Storable(m, a) && a.n == 8 && k < |a.values|
    ensures a.addr + 8 * k + 8 <= TWO64
    ensures Number(StoreAll(m, a.addr, 8, a.values), a.addr + 8 * k, 8) == a.values[k]
  {
    hide Pow256, StoreAll, LittleEndian, Bytes, WellFormed, AllGranted;
    Pow256Values();
    PieceInside(a.addr, k, 8, |a.values|);
    FetchedIsStored(m, a.addr, 8, a.values, k);
    SmallMod(a.values[k], TWO64);
  }

  /** The sixteen-byte LDR: the low half from the address, the high half from eight bytes on. */
  lemma LoadVectorMeans(r: Regs, insn: Insn, m: Ram)
    requires WellFormedInsn(insn) && IsSingleVector(insn) && insn.op == Ldr
    ensures
      var addr, r' := Address(r, insn), Retired(r, insn, m, false);
      && r'.v[insn.rd].lo == Number(m, addr, 8) && r'.v[insn.rd].hi == Number(m, (addr + 8) % TWO64, 8)
      && (forall k :: 0 <= k < 32 && k != insn.rd ==> r'.v[k] == r.v[k])
      && BaseOver(r.(v := r'.v), r, r', insn)
  {
    hide Address, Written, Fetched, Number;
    var addr := Address(r, insn);
    WordFetched(m, addr, 0);
    WordFetched(m, addr, 1);
    assert (addr + 8 * 0) % TWO64 == addr;
  }

  lemma WordFetched(m: Ram, addr: u64, k: nat)
    ensures Fetched(m, addr, k, 8, false) == Number(m, (addr + 8 * k) % TWO64, 8)
  {
    hide LittleEndian, Bytes;
    assert Piece(addr, k, 8) == (addr + 8 * k) % TWO64;
  }

  /** How many pieces of how many bytes an instruction moves: sixteen-byte registers go as halves. */
  function PieceCount(insn: Insn): nat {
    if insn.vector && insn.size == 16 then (if insn.op == Ldp || insn.op == Stp then 4 else 2)
    else if insn.op == Ldp || insn.op == Stp || insn.op == Ldpsw then 2
    else 1
  }

  function PieceLength(insn: Insn): nat {
    if insn.vector && insn.size == 16 then 8 else insn.size
  }

  /** Every memory instruction but the exclusive ones completes exactly when each of its pieces, from its address on,
      may be read, or for a store written; nothing past them is asked for. */
  lemma TouchesExactly(w: World, r: Regs, insn: Insn)
    requires IsMemory(insn.op) && WellFormedInsn(insn) && insn.op != Ldxr && insn.op != Stxr
    requires insn.op == Ldp || insn.op == Stp || insn.op == Ldr || insn.op == Str || !insn.vector
    ensures
      var need := if IsStore(insn.op) then WRITE else READ;
      Perform(w, AccessOf(r, insn)).1.status == OK <==>
      AllGranted(w.ram.regions, Address(r, insn), PieceLength(insn), PieceCount(insn), need)
  {
    hide Address, AllGranted, StoreAll, Read;
  }
}
