/** What MSR and MRS mean for a guest: which encodings there are, what a write leaves to be read back, and which other
    registers it moves. */
module RegisterMeaning {
  import opened Words
  import opened ExceptionState
  import opened SystemRegisters

  /** An encoding by its op1, CRn, CRm and op2. */
  function Enc(op1: nat, crn: nat, crm: nat, op2: nat): int {
    0x800 * op1 + 0x80 * crn + 8 * crm + op2
  }

  /** The fields of a PSTATE or SPSR word are where the architecture has them. */
  lemma PstateBits(w: u64)
    ensures
      var p := Unpack(w);
      && p.h == Bit(w, 1) && p.reserved == Bit(w, 2) && p.el == w / 4 % 4 && p.aarch32 == Bit(w, 0x10)
      && p.f == Bit(w, 0x40) && p.i == Bit(w, 0x80) && p.a == Bit(w, 0x100) && p.d == Bit(w, 0x200)
      && p.il == Bit(w, 0x10_0000) && p.flags == w / 0x1000_0000 % 16
  {
  }

  /** An interrupt-masked mode as its word: EL1h is 0x3C5, EL1t 0x3C4, EL3h 0x3CD, EL0t 0x3C0. */
  lemma MaskedWord(h: bool, el: Level)
    ensures Pack(Psr(h, false, el, false, false, true, true, true, true, 0, false, 0, 0, 0)) ==
            0x3C0 + 4 * el + if h then 1 else 0
  {
  }

  function Held(): Option<Row> {
    Some(Row(1, false, Plain(0x1_0000_0000_0000_0000)))
  }

  function Zeros(level: Level): Option<Row> {
    Some(Row(level, false, Zero))
  }

  function Identity0(): Option<Row> {
    Some(Row(0, true, Ident))
  }

  /** CRn 0 of op1 0: MIDR, MPIDR, REVIDR; MDSCR; PFR0, DFR0, ISAR0 and 1, MMFR0 and 1; and the feature registers of
      what is not implemented, which read zero. */
  function Features(crm: nat, op2: nat): Option<Row> {
    match crm
    case 0 => if op2 == 0 || op2 == 5 || op2 == 6 then Identity0() else None
    case 2 => if op2 == 2 then Zeros(1) else None
    case 4 => if op2 == 0 then Identity0() else if op2 in {1, 2, 4, 5} then Zeros(0) else None
    case 5 => if op2 == 0 then Identity0() else if op2 in {1, 2, 4} then Zeros(0) else None
    case 6 => if op2 <= 1 then Identity0() else if op2 <= 5 then Zeros(0) else None
    case 7 => if op2 <= 1 then Identity0() else if op2 <= 3 then Zeros(0) else None
    case _ => None
  }

  /** The registers of exception entry, at EL1 and at EL3: SPSR, ELR, ESR, FAR, VBAR. */
  function Banked(l: Level, crn: nat, crm: nat, op2: nat): Option<Row> {
    if crn == 4 && crm == 0 && op2 == 0 then Some(Row(l, false, SpsrOf(l)))
    else if crn == 4 && crm == 0 && op2 == 1 then Some(Row(l, false, ElrOf(l)))
    else if crn == 5 && crm == 2 && op2 == 0 then Some(Row(l, false, EsrOf(l)))
    else if crn == 6 && crm == 0 && op2 == 0 then Some(Row(l, false, FarOf(l)))
    else if crn == 12 && crm == 0 && op2 == 0 then Some(Row(l, false, VbarOf(l)))
    else None
  }

  /** The rest of op1 0. */
  function System(crn: nat, crm: nat, op2: nat): Option<Row> {
    match crn
    case 0 => Features(crm, op2)
    case 1 => // SCTLR, CPACR; the OS lock
      if crm == 0 && (op2 == 0 || op2 == 2) then Held()
      else if (crm == 0 || crm == 3) && op2 == 4 then Zeros(1)
      else None
    case 2 => // TTBR0, TTBR1, TCR; TCR2
      if crm == 0 && op2 <= 2 then Held() else if crm == 0 && op2 == 3 then Zeros(1) else None
    case 4 => // SP_EL0, SPSel, CurrentEL
      if crm == 1 && op2 == 0 then Some(Row(0, false, SpEl0))
      else if crm == 2 && op2 == 0 then Some(Row(1, false, SpSel))
      else if crm == 2 && op2 == 2 then Some(Row(1, true, CurrentEl))
      else Banked(1, crn, crm, op2)
    case 7 => if crm == 4 && op2 == 0 then Some(Row(1, true, Par)) else None
    case 10 => // MAIR, AMAIR; the permission indirections
      if (crm == 2 || crm == 3) && op2 == 0 then Held()
      else if crm == 2 && (op2 == 2 || op2 == 3) then Zeros(1)
      else None
    case 12 => // DISR
      if crm == 1 && op2 == 1 then Zeros(1) else Banked(1, crn, crm, op2)
    case 13 => // CONTEXTIDR, TPIDR
      if crm == 0 && (op2 == 1 || op2 == 4) then Held() else None
    case 14 => // CNTKCTL
      if crm == 1 && op2 == 0 then Held() else None
    case _ => Banked(1, crn, crm, op2)
  }

  /** CRn 14 of op1 3: the counter's frequency, its counts, CNTVOFF, and of each timer CTL, CVAL and TVAL. */
  function Timers(crm: nat, op2: nat): Option<Row> {
    match crm
    case 0 =>
      (match op2
       case 0 => Identity0()
       case 1 => Some(Row(0, true, PhysicalCount))
       case 2 => Some(Row(0, true, VirtualCount))
       case 3 => Held()
       case 5 => Some(Row(1, true, PhysicalCount))
       case 6 => Some(Row(1, true, VirtualCount))
       case _ => None)
    case 2 => Timer(false, op2)
    case 3 => Timer(true, op2)
    case _ => None
  }

  function Timer(virtual: bool, op2: nat): Option<Row> {
    match op2
    case 1 => Some(Row(1, false, TimerCtl(virtual)))
    case 2 => Held()
    case 3 => Some(Row(1, false, TimerValue(virtual)))
    case _ => None
  }

  /** Op1 3. */
  function User(crn: nat, crm: nat, op2: nat): Option<Row> {
    match crn
    case 0 => if crm == 0 && (op2 == 1 || op2 == 7) then Identity0() else None // CTR, DCZID
    case 4 => // NZCV, DAIF, FPCR, FPSR
      if crm == 2 && op2 == 0 then Some(Row(0, false, Nzcv))
      else if crm == 2 && op2 == 1 then Some(Row(1, false, Masks))
      else if crm == 4 && op2 <= 1 then Some(Row(0, false, Plain(0x1_0000_0000)))
      else None
    case 9 => if crm == 14 && op2 == 0 then Zeros(0) else None // PMUSERENR
    case 13 => // TPIDR and TPIDRRO; AMUSERENR
      if crm == 0 && (op2 == 2 || op2 == 3) then Some(Row(0, false, Plain(0x1_0000_0000_0000_0000)))
      else if crm == 2 && op2 == 3 then Zeros(0)
      else None
    case 14 => Timers(crm, op2)
    case _ => None
  }

  /** The registers there are, by op1, CRn, CRm and op2: from which level, whether they can be written, and what stands
      behind them. */
  function Table(op1: nat, crn: nat, crm: nat, op2: nat): Option<Row> {
    match op1
    case 0 => System(crn, crm, op2)
    case 1 => if crn == 0 && crm == 0 && op2 <= 1 then Some(Row(1, true, Ident)) else None // CCSIDR, CLIDR
    case 2 => if crn == 0 && crm == 0 && op2 == 0 then Zeros(1) else None // CSSELR
    case 3 => User(crn, crm, op2)
    case 4 => if crn == 4 && crm == 1 && op2 == 0 then Some(Row(2, false, SpEl1)) else None
    case 6 => Banked(3, crn, crm, op2)
    case _ => None
  }

  /** These, and no others. */
  lemma TableIs(op1: nat, crn: nat, crm: nat, op2: nat)
    requires op1 < 8 && crn < 16 && crm < 16 && op2 < 8
    ensures RowAt(Enc(op1, crn, crm, op2)) == Table(op1, crn, crm, op2)
  {
    if op1 == 0 {
      SystemIs(crn, crm, op2);
    } else if op1 == 3 {
      UserIs(crn, crm, op2);
    } else {
      OthersAre(op1, crn, crm, op2);
    }
  }

  lemma SystemIs(crn: nat, crm: nat, op2: nat)
    requires crn < 16 && crm < 16 && op2 < 8
    ensures RowAt(Enc(0, crn, crm, op2)) == System(crn, crm, op2)
  {
    hide RowAt;
    if crn == 0 {
      FeaturesAre(crm, op2);
    } else if crn < 7 {
      LowSystemIs(crn, crm, op2);
    } else {
      HighSystemIs(crn, crm, op2);
    }
  }

  lemma FeaturesAre(crm: nat, op2: nat)
    requires crm < 16 && op2 < 8
    ensures RowAt(Enc(0, 0, crm, op2)) == Features(crm, op2)
  {
  }

  lemma LowSystemIs(crn: nat, crm: nat, op2: nat)
    requires 0 < crn < 7 && crm < 16 && op2 < 8
    ensures RowAt(Enc(0, crn, crm, op2)) == System(crn, crm, op2)
  {
  }

  lemma HighSystemIs(crn: nat, crm: nat, op2: nat)
    requires 7 <= crn < 16 && crm < 16 && op2 < 8
    ensures RowAt(Enc(0, crn, crm, op2)) == System(crn, crm, op2)
  {
  }

  lemma UserIs(crn: nat, crm: nat, op2: nat)
    requires crn < 16 && crm < 16 && op2 < 8
    ensures RowAt(Enc(3, crn, crm, op2)) == User(crn, crm, op2)
  {
  }

  lemma OthersAre(op1: nat, crn: nat, crm: nat, op2: nat)
    requires op1 < 8 && op1 != 0 && op1 != 3 && crn < 16 && crm < 16 && op2 < 8
    ensures RowAt(Enc(op1, crn, crm, op2)) == Table(op1, crn, crm, op2)
  {
  }

  /** What the storage rows hold at boot: MIDR, PFR0, DFR0, ISAR0 and MMFR0; MPIDR and REVIDR; SCTLR; CCSIDR and CLIDR;
      CTR and DCZID; the counter's frequency; and 0 in all others. */
  function AtBoot(op1: nat, crn: nat, crm: nat, op2: nat): nat {
    if op1 == 0 && crn == 0 && op2 == 0 then
      if crm == 0 then 0x410F_D034 else if crm == 4 then 0x10 else if crm == 5 then 0x1030_5106
      else if crm == 6 then 0x1_1120 else if crm == 7 then 0x1122 else 0
    else if op1 == 0 && crn == 0 && crm == 0 then if op2 == 5 then 0x8000_0000 else if op2 == 6 then 0x100 else 0
    else if op1 == 0 && crn == 1 && crm == 0 && op2 == 0 then 0x30D0_0800
    else if op1 == 1 && crn == 0 && crm == 0 then if op2 == 0 then 0x100F_E01A else if op2 == 1 then 0x0A20_0023 else 0
    else if op1 == 3 && crn == 0 && crm == 0 then if op2 == 1 then 0x8444_8004 else if op2 == 7 then 0x10 else 0
    else if op1 == 3 && crn == 14 && crm == 0 && op2 == 0 then 62_500_000
    else 0
  }

  /** Every storage row out of reset; `IdentificationIsFixed` says which of them never change. */
  lemma ResetValues(s: State, op1: nat, crn: nat, crm: nat, op2: nat)
    requires s.slots == RESET && op1 < 8 && crn < 16 && crm < 16 && op2 < 8
    ensures Slot(s, Enc(op1, crn, crm, op2)) == AtBoot(op1, crn, crm, op2)
  {
    BootValueIs(op1, crn, crm, op2);
  }

  lemma BootValueIs(op1: nat, crn: nat, crm: nat, op2: nat)
    requires op1 < 8 && crn < 16 && crm < 16 && op2 < 8
    ensures BootValue(Enc(op1, crn, crm, op2)) == AtBoot(op1, crn, crm, op2)
    ensures 0 <= Enc(op1, crn, crm, op2) < 0x4000
  {
  }

  /** CurrentEL shows the level at bits 3 and 2. */
  lemma LevelRead(s: State)
    requires s.pstate.el == 1
    ensures ReadReg(s, Enc(0, 4, 2, 2)) == Some(4)
  {
    hide Count, Slot;
  }

  /** The counters show the count from EL0 up, the virtual one less the offset. */
  lemma CountReads(s: State)
    ensures ReadReg(s, Enc(3, 14, 0, 1)) == Some(s.counter)
    ensures ReadReg(s, Enc(3, 14, 0, 2)) == Some((s.counter - Slot(s, 0x1F03)) % TWO64)
  {
    hide Slot;
  }

  /** So do their self-synchronised forms from EL1 up. */
  lemma OrderedCountReads(s: State)
    requires s.pstate.el >= 1
    ensures ReadReg(s, Enc(3, 14, 0, 5)) == Some(s.counter)
    ensures ReadReg(s, Enc(3, 14, 0, 6)) == Some((s.counter - Slot(s, 0x1F03)) % TWO64)
  {
    hide Slot;
  }

  // ----- what a write leaves -----

  /** What MRS reads after MSR of `v`: the implemented bits, with the timer's status as it then is. */
  function ReadBack(s: State, sel: int, v: u64): int {
    if Zero0(sel) || Zero1(sel) then 0
    else if sel == Enc(0, 4, 2, 0) then v % 2
    else if sel == Enc(3, 4, 2, 0) then v / 0x1000_0000 % 16 * 0x1000_0000
    else if sel == Enc(3, 4, 2, 1) then v / 0x40 % 16 * 0x40
    else if sel == Enc(3, 4, 4, 0) || sel == Enc(3, 4, 4, 1) then v % 0x1_0000_0000
    else if sel == 0x1F11 then v - v / 4 % 2 * 4 + (if Fires(v, s.counter, Slot(s, 0x1F12)) then 4 else 0)
    else if sel == 0x1F19 then
      v - v / 4 % 2 * 4 + (if Fires(v, s.counter - Slot(s, 0x1F03), Slot(s, 0x1F1A)) then 4 else 0)
    else v
  }

  /** Enabled, not masked, and the count at or past the comparator as the architecture compares them. */
  predicate Fires(ctl: u64, count: int, compare: u64) {
    ctl % 2 == 1 && ctl / 2 % 2 == 0 && (count - compare) % TWO64 < 0x8000_0000_0000_0000
  }

  lemma MsrThenMrs(s: State, sel: int, v: u64)
    requires WriteReg(s, sel, v).Some? && s.pstate.el != 2
    ensures ReadReg(WriteReg(s, sel, v).value, sel) == Some(ReadBack(s, sel, v))
  {
    hide RowAt, ReadBack, ReadBacking, WriteBacking;
    var b := RowAt(sel).value.backing;
    RowOf(sel);
    SameLevel(s, sel, b, v);
    if b.TimerCtl? {
      ControlKept(s, sel, b.virtual, v);
    } else if b.TimerValue? {
      ValueKept(s, sel, b.virtual, v);
    } else if b == Masks {
      MasksRead(s, sel, v);
    } else {
      BankKept(s, sel, b, v);
    }
  }

  /** Which writable rows have which backing. */
  predicate Backed(sel: int, b: Backing) {
    match b
    case Zero => Zero0(sel) || Zero1(sel)
    case Plain(width) => if sel == 0x1A20 || sel == 0x1A21 then width == TWO32 else width == TWO64 && Ordinary(sel)
    case SpSel => sel == 0x210
    case Nzcv => sel == 0x1A10
    case Masks => sel == 0x1A11
    case TimerCtl(t) => sel == if t then 0x1F19 else 0x1F11
    case TimerValue(t) => sel == if t then 0x1F1B else 0x1F13
    case SpEl0 => sel == 0x208
    case SpEl1 => sel == 0x2208
    case SpsrOf(l) => AtLevel(sel, l, 0x200)
    case ElrOf(l) => AtLevel(sel, l, 0x201)
    case EsrOf(l) => AtLevel(sel, l, 0x290)
    case FarOf(l) => AtLevel(sel, l, 0x300)
    case VbarOf(l) => AtLevel(sel, l, 0x600)
    case VirtualCount => sel == 0x1F02 || sel == 0x1F06
    case Ident => Identity(sel)
    case CurrentEl => sel == 0x212
    case _ => true
  }

  /** The EL1 encoding, or the EL3 one 0x3000 above it. */
  predicate AtLevel(sel: int, l: Level, at: int) {
    (l == 1 && sel == at) || (l == 3 && sel == 0x3000 + at)
  }

  /** Every bit of the register is stored and read back. */
  predicate Ordinary(sel: int) {
    && !Zero0(sel) && !Zero1(sel) && sel != 0x210 && sel != 0x1A10 && sel != 0x1A11 && sel != 0x1A20 && sel != 0x1A21
    && sel != 0x1F11 && sel != 0x1F19
  }

  lemma RowOf(sel: int)
    requires RowAt(sel).Some?
    ensures Backed(sel, RowAt(sel).value.backing)
    ensures RowAt(sel).value.backing in {Ident, CurrentEl, Par, PhysicalCount, VirtualCount} ==>
              RowAt(sel).value.readOnly
  {
  }

  lemma SameLevel(s: State, sel: int, b: Backing, v: u64)
    ensures WriteBacking(s, sel, b, v).pstate.el == s.pstate.el
  {
    hide Unpack, Put, WithoutStatus, Count, Slot;
  }

  lemma MasksRead(s: State, sel: int, v: u64)
    ensures ReadBacking(WriteBacking(s, sel, Masks, v), sel, Masks) == v / 0x40 % 16 * 0x40
    ensures sel == 0x1A11 ==> ReadBack(s, sel, v) == v / 0x40 % 16 * 0x40
  {
    hide PackMasks, Masked;
    MasksKept(s.pstate, v);
  }

  lemma MasksKept(p: Psr, v: u64)
    ensures PackMasks(Masked(p, v)) == v / 0x40 % 16 * 0x40
  {
    hide Bool, BitOf;
    MaskFields(v);
    FourBits(v);
  }

  lemma FourBits(v: u64)
    ensures 0x40 * (v / 0x40) - 0x400 * (v / 0x400) == v / 0x40 % 16 * 0x40
  {
  }

  lemma BankKept(s: State, sel: int, b: Backing, v: u64)
    requires Backed(sel, b) && !b.TimerCtl? && !b.TimerValue? && b != Masks
    requires b !in {Ident, CurrentEl, Par, PhysicalCount, VirtualCount}
    ensures ReadBacking(WriteBacking(s, sel, b, v), sel, b) == ReadBack(s, sel, v)
  {
    hide Unpack, Pack, WithoutStatus, Count, PackMasks, Masked, Fires;
    PackUnpack(v);
    if b == Plain(TWO32) {
      NarrowKept(Slot(s, sel), v);
    }
  }

  lemma NarrowKept(old32: u64, v: u64)
    ensures (old32 - old32 % TWO32 + v % TWO32) % TWO32 == v % TWO32
  {
    var q := old32 / TWO32;
    ModUnique(old32 - old32 % TWO32 + v % TWO32, TWO32, q, v % TWO32);
  }

  lemma StatusApart(v: u64)
    ensures
      var w := WithoutStatus(v);
      && w == v - v / 4 % 2 * 4 && w % 2 == v % 2 && w / 2 % 2 == v / 2 % 2 && WithoutStatus(w) == w
  {
  }

  lemma ControlKept(s: State, sel: int, t: bool, v: u64)
    requires sel == if t then 0x1F19 else 0x1F11
    ensures ReadBacking(WriteBacking(s, sel, TimerCtl(t), v), sel, TimerCtl(t)) == ReadBack(s, sel, v)
  {
    hide WithoutStatus, TimerFires, Fires;
    StatusApart(v);
    var compare := Slot(s, if t then 0x1F1A else 0x1F12);
    FiresAlike(s, t, v, compare);
  }

  lemma FiresAlike(s: State, t: bool, v: u64, compare: u64)
    ensures TimerFires(Count(s, t), WithoutStatus(v), compare) <==>
            Fires(v, if t then s.counter - Slot(s, 0x1F03) else s.counter, compare)
  {
    hide WithoutStatus;
    StatusApart(v);
    CountMod(s.counter, Slot(s, 0x1F03), compare);
  }

  lemma CountMod(counter: u64, offset: u64, compare: u64)
    ensures (Wrap(counter - offset) - compare) % TWO64 == (counter - offset - compare) % TWO64
  {
  }

  lemma ValueKept(s: State, sel: int, t: bool, v: u64)
    requires sel == if t then 0x1F1B else 0x1F13
    ensures ReadBacking(WriteBacking(s, sel, TimerValue(t), v), sel, TimerValue(t)) == v
    ensures ReadBack(s, sel, v) == v
  {
    hide Fires;
    CountBack(Count(s, t), v);
  }

  lemma CountBack(count: u64, v: u64)
    ensures Wrap(Wrap(count + v) - count) == v
  {
  }

  // ----- what a write leaves alone -----

  /** The registers a timer write moves besides its own: an offset moves the virtual count and what is reckoned from
      it; a comparator, written as CVAL or TVAL, shows in both and in the status. */
  predicate Linked(sel: int, other: int) {
    || (sel == 0x1F03 && (other == 0x1F02 || other == 0x1F06 || other == 0x1F19 || other == 0x1F1B))
    || ((sel == 0x1F12 || sel == 0x1F13) && 0x1F11 <= other <= 0x1F13)
    || ((sel == 0x1F1A || sel == 0x1F1B) && 0x1F19 <= other <= 0x1F1B)
  }

  /** MSR of one register leaves the reading of every other as it was, the linked timer registers apart. */
  lemma MsrMovesOnlyItsOwn(s: State, sel: int, v: u64, other: int)
    requires WriteReg(s, sel, v).Some? && s.pstate.el != 2 && other != sel && !Linked(sel, other)
    ensures ReadReg(WriteReg(s, sel, v).value, other) == ReadReg(s, other)
  {
    hide RowAt, ReadBacking, WriteBacking, Linked, Backed;
    var b := RowAt(sel).value.backing;
    RowOf(sel);
    SameLevel(s, sel, b, v);
    if RowAt(other).Some? {
      RowOf(other);
      OthersKept(s, sel, b, v, other, RowAt(other).value.backing);
    }
  }

  lemma OthersKept(s: State, sel: int, b: Backing, v: u64, other: int, b': Backing)
    requires Backed(sel, b) && Backed(other, b') && other != sel && !Linked(sel, other)
    requires b !in {Ident, CurrentEl, Par, PhysicalCount, VirtualCount}
    ensures ReadBacking(WriteBacking(s, sel, b, v), other, b') == ReadBacking(s, other, b')
  {
    hide ReadBacking, WriteBacking;
    var r := WriteBacking(s, sel, b, v);
    match b
    case Plain(_) => SlotWriteKeeps(s, sel, b, v, other, b');
    case TimerCtl(_) => SlotWriteKeeps(s, sel, b, v, other, b');
    case TimerValue(_) => SlotWriteKeeps(s, sel, b, v, other, b');
    case SpSel => SelectKeeps(s, sel, v, other, b');
    case SpEl0 => StackWriteKeeps(s, sel, b, v, other, b');
    case SpEl1 => StackWriteKeeps(s, sel, b, v, other, b');
    case _ => BankWriteKeeps(s, sel, b, v, other, b');
  }

  lemma SlotWriteKeeps(s: State, sel: int, b: Backing, v: u64, other: int, b': Backing)
    requires Backed(sel, b) && Backed(other, b') && other != sel && !Linked(sel, other)
    requires b.Plain? || b.TimerCtl? || b.TimerValue?
    ensures ReadBacking(WriteBacking(s, sel, b, v), other, b') == ReadBacking(s, other, b')
  {
    hide Pack, PackMasks, WithoutStatus, TimerFires;
  }

  lemma SelectKeeps(s: State, sel: int, v: u64, other: int, b': Backing)
    requires Backed(sel, SpSel) && Backed(other, b') && other != sel
    ensures ReadBacking(WriteBacking(s, sel, SpSel, v), other, b') == ReadBacking(s, other, b')
  {
    hide Bool, ReadBacking, Switched;
    var p := s.pstate.(h := Bool(v));
    if b' == SpEl0 || b' == SpEl1 {
      SwitchKeepsStacks(s, p);
      StackReads(s);
      StackReads(Switched(s, p));
    } else {
      SwitchedReads(s, p, other, b');
    }
  }

  lemma StackReads(s: State)
    ensures forall sel :: ReadBacking(s, sel, SpEl0) == Stacks(s)[0] && ReadBacking(s, sel, SpEl1) == Stacks(s)[1]
  {
  }

  lemma SwitchedReads(s: State, p: Psr, other: int, b: Backing)
    requires b != SpSel && b != SpEl0 && b != SpEl1 && p == s.pstate.(h := p.h)
    ensures ReadBacking(Switched(s, p), other, b) == ReadBacking(s, other, b)
  {
    hide ReadBacking, Switched;
    var r := Switched(s, p);
    SwitchedFields(s, p);
    SameReads(s, r, other, b);
  }

  lemma SwitchedFields(s: State, p: Psr)
    ensures Switched(s, p) == s.(sp := Switched(s, p).sp, spEl := Switched(s, p).spEl, pstate := p)
  {
    hide Put;
  }

  lemma SameReads(s: State, r: State, other: int, b: Backing)
    requires b != SpSel && b != SpEl0 && b != SpEl1
    requires r == s.(sp := r.sp, spEl := r.spEl, pstate := s.pstate.(h := r.pstate.h))
    ensures ReadBacking(r, other, b) == ReadBacking(s, other, b)
  {
    hide Pack, WithoutStatus, TimerFires;
  }

  lemma StackWriteKeeps(s: State, sel: int, b: Backing, v: u64, other: int, b': Backing)
    requires Backed(sel, b) && Backed(other, b') && other != sel && (b == SpEl0 || b == SpEl1)
    ensures ReadBacking(WriteBacking(s, sel, b, v), other, b') == ReadBacking(s, other, b')
  {
    hide Pack, PackMasks, WithoutStatus, TimerFires;
  }

  lemma BankWriteKeeps(s: State, sel: int, b: Backing, v: u64, other: int, b': Backing)
    requires Backed(sel, b) && Backed(other, b') && other != sel
    requires b !in {Ident, CurrentEl, Par, PhysicalCount, VirtualCount, SpSel, SpEl0, SpEl1}
    requires !b.Plain? && !b.TimerCtl? && !b.TimerValue?
    ensures ReadBacking(WriteBacking(s, sel, b, v), other, b') == ReadBacking(s, other, b')
  {
    hide Pack, WithoutStatus, TimerFires, Unpack;
  }
}
