/** The system-register table: MRS and MSR over the exception state. */
module SystemRegisters {
  import opened Words
  import opened ExceptionState

  function Bool(b: nat): bool {
    b % 2 == 1
  }

  function BitOf(b: bool): nat {
    if b then 1 else 0
  }

  /** A 64-bit word by its PSTATE fields, lowest bit first. */
  function Unpack(w: u64): Psr {
    Psr(Bool(w), Bool(w / 2), w / 4 % 4, Bool(w / 0x10), Bool(w / 0x20), Bool(w / 0x40), Bool(w / 0x80),
        Bool(w / 0x100), Bool(w / 0x200), w / 0x400 % 0x400, Bool(w / 0x10_0000), w / 0x20_0000 % 0x80,
        w / 0x1000_0000 % 16, w / 0x1_0000_0000)
  }

  function PackMode(p: Psr): int {
    BitOf(p.h) + 2 * BitOf(p.reserved) + 4 * p.el + 0x10 * BitOf(p.aarch32) + 0x20 * BitOf(p.bit5)
  }

  function PackMasks(p: Psr): int {
    0x40 * BitOf(p.f) + 0x80 * BitOf(p.i) + 0x100 * BitOf(p.a) + 0x200 * BitOf(p.d)
  }

  function PackUpper(p: Psr): int {
    0x400 * p.low + 0x10_0000 * BitOf(p.il) + 0x20_0000 * p.mid + 0x1000_0000 * p.flags + 0x1_0000_0000 * p.high
  }

  function Pack(p: Psr): int {
    PackMode(p) + PackMasks(p) + PackUpper(p)
  }

  lemma Digit(w: nat, place: nat, radix: nat)
    requires place > 0 && radix > 0
    ensures place * radix > 0
    ensures w / place == radix * (w / (place * radix)) + w / place % radix
  {
    DigitBound(place, radix, 0, 0);
    DigitQuotient(w, place, radix, w / place, w % place, w / place / radix, w / place % radix);
  }

  lemma DigitQuotient(w: nat, place: nat, radix: nat, q: nat, s: nat, r: nat, t: nat)
    requires s < place && t < radix && w == place * q + s && q == radix * r + t
    ensures place * radix > 0 && w / (place * radix) == r
  {
    PlaceValue(place, radix, r, t);
    DigitBound(place, radix, s, t);
    ModUnique(w, place * radix, r, place * t + s);
  }

  lemma PlaceValue(place: nat, radix: nat, r: nat, t: nat)
    ensures place * (radix * r + t) == r * (place * radix) + place * t
  {
    assert place * (radix * r) == r * (place * radix);
  }

  lemma DigitBound(place: nat, radix: nat, s: nat, t: nat)
    requires s < place && t < radix
    ensures 0 <= place * t + s < place * radix
  {
    MulAway(radix - t, place);
    assert place * radix - place * t == (radix - t) * place;
  }

  lemma ModeFields(w: u64)
    ensures PackMode(Unpack(w)) == w - 0x40 * (w / 0x40)
  {
    Digit(w, 1, 2);
    Digit(w, 2, 2);
    Digit(w, 4, 4);
    Digit(w, 0x10, 2);
    Digit(w, 0x20, 2);
  }

  lemma MaskFields(w: u64)
    ensures PackMasks(Unpack(w)) == 0x40 * (w / 0x40) - 0x400 * (w / 0x400)
  {
    Digit(w, 0x40, 2);
    Digit(w, 0x80, 2);
    Digit(w, 0x100, 2);
    Digit(w, 0x200, 2);
  }

  lemma UpperFields(w: u64)
    ensures PackUpper(Unpack(w)) == 0x400 * (w / 0x400)
  {
    Digit(w, 0x400, 0x400);
    Digit(w, 0x10_0000, 2);
    Digit(w, 0x20_0000, 0x80);
    Digit(w, 0x1000_0000, 16);
  }

  /** The fields lose nothing of a word. */
  lemma PackUnpack(w: u64)
    ensures Pack(Unpack(w)) == w
  {
    hide Unpack, PackMode, PackMasks, PackUpper;
    ModeFields(w);
    MaskFields(w);
    UpperFields(w);
  }

  /** What stands behind a table row. */
  datatype Backing =
    | Ident | Zero | Plain(width: nat)
    | SpEl0 | SpEl1 | SpSel | CurrentEl | Nzcv | Masks
    | SpsrOf(l: Level) | ElrOf(l: Level) | EsrOf(l: Level) | FarOf(l: Level) | VbarOf(l: Level)
    | Par | PhysicalCount | VirtualCount | TimerCtl(virtual: bool) | TimerValue(virtual: bool)

  datatype Row = Row(minEl: Level, readOnly: bool, backing: Backing)

  const VIRTUAL_OFFSET: int := 0x1F03

  /** The identification block EL0 may read. */
  predicate Ident0(sel: int) {
    sel == 0 || sel == 5 || sel == 6 || sel == 0x20 || sel == 0x28 || sel == 0x30 || sel == 0x31 || sel == 0x38
    || sel == 0x39 || sel == 0x1801 || sel == 0x1807 || sel == 0x1F00
  }

  /** The part of it EL1 may read. */
  predicate Ident1(sel: int) {
    sel == 0x800 || sel == 0x801
  }

  /** Rows that read zero and ignore writes, from EL0 up. */
  predicate Zero0(sel: int) {
    sel == 0x21 || sel == 0x22 || sel == 0x24 || sel == 0x25 || sel == 0x29 || sel == 0x2A || sel == 0x2C
    || sel == 0x32 || sel == 0x33 || sel == 0x34 || sel == 0x35 || sel == 0x3A || sel == 0x3B || sel == 0x1CF0
    || sel == 0x1E93
  }

  /** And from EL1 up. */
  predicate Zero1(sel: int) {
    sel == 0x12 || sel == 0x84 || sel == 0x9C || sel == 0x103 || sel == 0x512 || sel == 0x513 || sel == 0x609
    || sel == 0x1000
  }

  /** Full-width storage rows of EL1. */
  predicate Plain1(sel: int) {
    sel == 0x80 || sel == 0x82 || sel == 0x100 || sel == 0x101 || sel == 0x102 || sel == 0x510 || sel == 0x518
    || sel == 0x681 || sel == 0x684 || sel == 0x708 || sel == 0x1F03 || sel == 0x1F12 || sel == 0x1F1A
  }

  /** The table, by the 14-bit encoding. */
  function RowAt(sel: int): Option<Row> {
    if Ident0(sel) then Some(Row(0, true, Ident))
    else if Ident1(sel) then Some(Row(1, true, Ident))
    else if Zero0(sel) then Some(Row(0, false, Zero))
    else if Zero1(sel) then Some(Row(1, false, Zero))
    else if Plain1(sel) then Some(Row(1, false, Plain(TWO64)))
    else if sel == 0x1A20 || sel == 0x1A21 then Some(Row(0, false, Plain(TWO32)))
    else if sel == 0x1E82 || sel == 0x1E83 then Some(Row(0, false, Plain(TWO64)))
    else if sel == 0x208 then Some(Row(0, false, SpEl0))
    else if sel == 0x210 then Some(Row(1, false, SpSel))
    else if sel == 0x212 then Some(Row(1, true, CurrentEl))
    else if sel == 0x1A10 then Some(Row(0, false, Nzcv))
    else if sel == 0x1A11 then Some(Row(1, false, Masks))
    else if sel == 0x3A0 then Some(Row(1, true, Par))
    else if sel == 0x200 then Some(Row(1, false, SpsrOf(1)))
    else if sel == 0x201 then Some(Row(1, false, ElrOf(1)))
    else if sel == 0x290 then Some(Row(1, false, EsrOf(1)))
    else if sel == 0x300 then Some(Row(1, false, FarOf(1)))
    else if sel == 0x600 then Some(Row(1, false, VbarOf(1)))
    else if sel == 0x2208 then Some(Row(2, false, SpEl1))
    else if sel == 0x3200 then Some(Row(3, false, SpsrOf(3)))
    else if sel == 0x3201 then Some(Row(3, false, ElrOf(3)))
    else if sel == 0x3290 then Some(Row(3, false, EsrOf(3)))
    else if sel == 0x3300 then Some(Row(3, false, FarOf(3)))
    else if sel == 0x3600 then Some(Row(3, false, VbarOf(3)))
    else if sel == 0x1F01 then Some(Row(0, true, PhysicalCount))
    else if sel == 0x1F02 then Some(Row(0, true, VirtualCount))
    else if sel == 0x1F05 then Some(Row(1, true, PhysicalCount))
    else if sel == 0x1F06 then Some(Row(1, true, VirtualCount))
    else if sel == 0x1F11 then Some(Row(1, false, TimerCtl(false)))
    else if sel == 0x1F13 then Some(Row(1, false, TimerValue(false)))
    else if sel == 0x1F19 then Some(Row(1, false, TimerCtl(true)))
    else if sel == 0x1F1B then Some(Row(1, false, TimerValue(true)))
    else None
  }

  /** The storage at reset, one slot for each encoding. */
  const RESET: map<int, u64> := map sel: int | 0 <= sel < 0x4000 :: BootValue(sel)

  function BootValue(sel: int): u64 {
    match sel
    case 0 => 0x410F_D034
    case 5 => 0x8000_0000
    case 6 => 0x100
    case 0x20 => 0x10
    case 0x28 => 0x1030_5106
    case 0x30 => 0x1_1120
    case 0x38 => 0x1122
    case 0x80 => 0x30D0_0800
    case 0x800 => 0x100F_E01A
    case 0x801 => 0x0A20_0023
    case 0x1801 => 0x8444_8004
    case 0x1807 => 0x10
    case 0x1F00 => 62_500_000
    case _ => 0
  }

  function Slot(s: State, sel: int): u64 {
    if sel in s.slots then s.slots[sel] else 0
  }

  /** The count a timer compares against. */
  function Count(s: State, virtual: bool): u64 {
    if virtual then Wrap(s.counter - Slot(s, VIRTUAL_OFFSET)) else s.counter
  }

  function CtlSlot(virtual: bool): int {
    if virtual then 0x1F19 else 0x1F11
  }

  function CompareSlot(virtual: bool): int {
    if virtual then 0x1F1A else 0x1F12
  }

  /** Enabled, unmasked, and the count has reached the comparator in wrapping arithmetic. */
  predicate TimerFires(count: u64, ctl: u64, compare: u64) {
    Bool(ctl) && !Bool(ctl / 2) && Wrap(count - compare) < 0x8000_0000_0000_0000
  }

  /** `ctl` with its status bit clear. */
  function WithoutStatus(ctl: u64): u64 {
    ctl - 4 * BitOf(Bool(ctl / 4))
  }

  function ReadBacking(s: State, sel: int, b: Backing): int {
    match b
    case Ident => Slot(s, sel)
    case Zero => 0
    case Plain(width) => if width == TWO64 then Slot(s, sel) else Slot(s, sel) % TWO32
    case SpEl0 => if s.pstate.el == 0 || !s.pstate.h then s.sp else s.spEl[0]
    case SpEl1 => if s.pstate.el == 1 && s.pstate.h then s.sp else s.spEl[1]
    case SpSel => BitOf(s.pstate.h)
    case CurrentEl => 4 * s.pstate.el
    case Nzcv => 0x1000_0000 * s.nzcv
    case Masks => PackMasks(s.pstate)
    case SpsrOf(l) => Pack(s.spsr[l])
    case ElrOf(l) => s.elr[l]
    case EsrOf(l) => s.esr[l]
    case FarOf(l) => s.far[l]
    case VbarOf(l) => s.vbar[l]
    case Par => 0 // the row's mask is empty and reads pass through it: what AT stored is never seen
    case PhysicalCount => s.counter
    case VirtualCount => Count(s, true)
    case TimerCtl(v) =>
      WithoutStatus(Slot(s, CtlSlot(v)))
      + 4 * BitOf(TimerFires(Count(s, v), Slot(s, CtlSlot(v)), Slot(s, CompareSlot(v))))
    case TimerValue(v) => Wrap(Slot(s, CompareSlot(v)) - Count(s, v))
  }

  function WriteBacking(s: State, sel: int, b: Backing, v: u64): State {
    match b
    case Plain(width) =>
      s.(slots := s.slots[sel := if width == TWO64 then v else Slot(s, sel) - Slot(s, sel) % TWO32 + v % TWO32])
    case SpEl0 =>
      s.(spEl := Put(s.spEl, 0, v), sp := if s.pstate.el == 0 || !s.pstate.h then v else s.sp)
    case SpEl1 =>
      s.(spEl := Put(s.spEl, 1, v), sp := if s.pstate.el == 1 && s.pstate.h then v else s.sp)
    case SpSel => Switched(s, s.pstate.(h := Bool(v)))
    case Nzcv => s.(nzcv := v / 0x1000_0000 % 16)
    case Masks => s.(pstate := Masked(s.pstate, v))
    case SpsrOf(l) => s.(spsr := Put(s.spsr, l, Unpack(v)))
    case ElrOf(l) => s.(elr := Put(s.elr, l, v))
    case EsrOf(l) => s.(esr := Put(s.esr, l, v))
    case FarOf(l) => s.(far := Put(s.far, l, v))
    case VbarOf(l) => s.(vbar := Put(s.vbar, l, v))
    case TimerCtl(t) => s.(slots := s.slots[CtlSlot(t) := WithoutStatus(v)])
    case TimerValue(t) => s.(slots := s.slots[CompareSlot(t) := Wrap(Count(s, t) + v)])
    case _ => s
  }

  /** PSTATE with its interrupt masks taken from the DAIF positions of `v`. */
  function Masked(p: Psr, v: nat): Psr {
    p.(f := Bool(v / 0x40), i := Bool(v / 0x80), a := Bool(v / 0x100), d := Bool(v / 0x200))
  }

  /** MRS: nothing when the encoding has no row or the level is too low. */
  function ReadReg(s: State, sel: int): Option<int> {
    match RowAt(sel)
    case None => None
    case Some(row) => if s.pstate.el < row.minEl then None else Some(ReadBacking(s, sel, row.backing))
  }

  /** MSR: refused likewise, and for read-only rows. */
  function WriteReg(s: State, sel: int, v: u64): Option<State> {
    match RowAt(sel)
    case None => None
    case Some(row) =>
      if s.pstate.el < row.minEl || row.readOnly then None else Some(WriteBacking(s, sel, row.backing, v))
  }

  /** The stack banks after a table write: SP_EL0 and SP_EL1 each change their own bank, every other row none. */
  function StacksAfter(stacks: seq<u64>, b: Backing, v: u64): seq<u64>
    requires |stacks| == 4
  {
    if b == SpEl0 then stacks[0 := v] else if b == SpEl1 then stacks[1 := v] else stacks
  }

  lemma WriteMovesOneBank(s: State, sel: int, v: u64)
    requires WriteReg(s, sel, v).Some?
    ensures Stacks(WriteReg(s, sel, v).value) == StacksAfter(Stacks(s), RowAt(sel).value.backing, v)
  {
    hide RowAt, Stacks, StacksAfter, WriteBacking;
    var backing := RowAt(sel).value.backing;
    if backing == SpEl0 || backing == SpEl1 {
      WriteMovesNamed(s, sel, backing, v);
    } else {
      WriteKeepsStacks(s, sel, backing, v);
    }
  }

  lemma WriteMovesNamed(s: State, sel: int, backing: Backing, v: u64)
    requires backing == SpEl0 || backing == SpEl1
    ensures Stacks(WriteBacking(s, sel, backing, v)) == StacksAfter(Stacks(s), backing, v)
  {
    var r := WriteBacking(s, sel, backing, v);
    forall b: Level ensures Sp(r, b) == StacksAfter(Stacks(s), backing, v)[b] {
    }
  }

  lemma WriteKeepsStacks(s: State, sel: int, backing: Backing, v: u64)
    requires backing != SpEl0 && backing != SpEl1
    ensures Stacks(WriteBacking(s, sel, backing, v)) == StacksAfter(Stacks(s), backing, v)
  {
    hide Stacks, Unpack, Count, WithoutStatus, Put, Slot;
    if backing == SpSel {
      SwitchKeepsStacks(s, s.pstate.(h := Bool(v)));
    } else {
      SameStacks(s, WriteBacking(s, sel, backing, v));
    }
  }

  /** A stack pointer reads back as the bank it names, live or not. */
  lemma ReadIsBank(s: State)
    ensures ReadBacking(s, 0x208, SpEl0) == Sp(s, 0) && ReadBacking(s, 0x2208, SpEl1) == Sp(s, 1)
  {
  }

  /** The verdict an address-translation instruction stores in PAR_EL1 never reads back. */
  lemma ParReadsZero(s: State)
    requires s.pstate.el >= 1
    ensures ReadReg(s, 0x3A0) == Some(0)
  {
  }

  /** TPIDRRO_EL0 has a writable row reachable from EL0, although the interpreter's comment says it has none. */
  lemma ReadOnlyThreadIdIsWritable(s: State, v: u64)
    ensures WriteReg(s, 0x1E83, v).Some? && ReadReg(WriteReg(s, 0x1E83, v).value, 0x1E83) == Some(v)
  {
  }

  /** The EL3 banks and identification registers, which a guest at EL0 or EL1 can never change. */
  ghost predicate SameMonitor(s: State, r: State) {
    && r.spEl[3] == s.spEl[3] && r.elr[3] == s.elr[3] && r.spsr[3] == s.spsr[3]
    && r.vbar[3] == s.vbar[3] && r.esr[3] == s.esr[3] && r.far[3] == s.far[3]
    && SameIdentity(s, r)
  }

  predicate Identity(sel: int) {
    Ident0(sel) || Ident1(sel)
  }

  ghost predicate SameIdentity(s: State, r: State) {
    forall sel {:trigger Slot(r, sel)} {:trigger Slot(s, sel)} :: Identity(sel) ==> Slot(r, sel) == Slot(s, sel)
  }

  /** Level `l` of a banked row, 1 for the rest. */
  function BankLevel(b: Backing): Level {
    match b
    case SpsrOf(l) => l
    case ElrOf(l) => l
    case EsrOf(l) => l
    case FarOf(l) => l
    case VbarOf(l) => l
    case _ => 1
  }

  /** Writable rows never store over an identification register, and the EL3 banks are EL3's. */
  lemma RowShape(sel: int)
    requires RowAt(sel).Some?
    ensures
      var row := RowAt(sel).value;
      && (row.backing.Plain? ==> !Identity(sel))
      && (BankLevel(row.backing) == 1 || row.minEl == 3)
      && (row.backing == SpSel ==> row.minEl == 1)
  {
  }

  lemma TimerSlotsApart(t: bool)
    ensures !Identity(CtlSlot(t)) && !Identity(CompareSlot(t))
  {
  }

  /** A PSTATE reachable from an EL0 or EL1 boot. */
  predicate GuestState(p: Psr) {
    Legal(p) && p.el <= 1
  }

  /** Below EL2 an accepted write stays in a guest state and reaches nothing of EL3 and no identification register. */
  lemma GuestWrite(s: State, sel: int, v: u64)
    requires GuestState(s.pstate) && WriteReg(s, sel, v).Some?
    ensures
      var r := WriteReg(s, sel, v).value;
      GuestState(r.pstate) && SameMonitor(s, r) && r.pc == s.pc && r.counter == s.counter
  {
    hide Unpack, Count, WithoutStatus, RowAt, Identity;
    RowShape(sel);
    TimerSlotsApart(true);
    TimerSlotsApart(false);
  }
}
