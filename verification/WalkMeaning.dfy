/** What a table walk means, said without the walk: descriptors and control fields by their bit positions, tables as a
    chain of encoded words, rights as the guest wrote them. The theorems tie module Translation to it. */
module WalkMeaning {
  import opened Words
  import opened FlatMemory
  import opened Translation

  /** A page or block descriptor, every bit of it: type, attributes, AP[2:1], shareability, AF, nG, output frame, and
      the upper attributes with PXN and UXN. */
  datatype LeafFields = LeafFields(page: bool, attr: nat, user: bool, readOnly: bool, share: nat, accessed: bool,
                                   notGlobal: bool, frame: nat, upper: nat, pxn: bool, uxn: bool, soft: nat)

  /** A table descriptor: next table's frame and the constraints it puts on everything below. */
  datatype TableFields = TableFields(low: nat, frame: nat, mid: nat, pxn: bool, xn: bool, noUser: bool, readOnly: bool,
                                     top: bool)

  predicate LeafOk(l: LeafFields) {
    l.attr < 16 && l.share < 4 && l.frame < 0x10_0000_0000 && l.upper < 32 && l.soft < 512
  }

  predicate TableOk(t: TableFields) {
    t.low < 1024 && t.frame < 0x10_0000_0000 && t.mid < 2048
  }

  function One(b: bool): nat {
    if b then 1 else 0
  }

  /** Bits 0 to 11. */
  function LeafLow(l: LeafFields): nat {
    1 + 0x2 * One(l.page) + 0x4 * l.attr + 0x40 * One(l.user) + 0x80 * One(l.readOnly) + 0x100 * l.share
    + 0x400 * One(l.accessed) + 0x800 * One(l.notGlobal)
  }

  /** Bits 48 to 63. */
  function LeafHigh(l: LeafFields): nat {
    l.upper + 0x20 * One(l.pxn) + 0x40 * One(l.uxn) + 0x80 * l.soft
  }

  function LeafWord(l: LeafFields): nat {
    LeafLow(l) + 0x1000 * l.frame + 0x1_0000_0000_0000 * LeafHigh(l)
  }

  function TableLow(t: TableFields): nat {
    3 + 4 * t.low
  }

  function TableHigh(t: TableFields): nat {
    t.mid + 0x800 * One(t.pxn) + 0x1000 * One(t.xn) + 0x2000 * One(t.noUser) + 0x4000 * One(t.readOnly)
    + 0x8000 * One(t.top)
  }

  function TableWord(t: TableFields): nat {
    TableLow(t) + 0x1000 * t.frame + 0x1_0000_0000_0000 * TableHigh(t)
  }

  /** Splitting a word at bits 12 and 48. */
  lemma Split(low: nat, frame: nat, high: nat)
    requires low < 0x1000 && frame < 0x10_0000_0000
    ensures
      var w := low + 0x1000 * frame + 0x1_0000_0000_0000 * high;
      && w % 0x1000 == low && w / 0x1000 % 0x10_0000_0000 == frame && w / 0x1_0000_0000_0000 == high
  {
    var w := low + 0x1000 * frame + 0x1_0000_0000_0000 * high;
    ModUnique(w, 0x1000, frame + 0x10_0000_0000 * high, low);
    ModUnique(frame + 0x10_0000_0000 * high, 0x10_0000_0000, high, frame);
    ModUnique(w, 0x1_0000_0000_0000, high, low + 0x1000 * frame);
  }

  /** The bit of value `place` in a word put together around it. */
  lemma BitAt(w: nat, place: nat, low: nat, b: bool, high: nat)
    requires place > 0 && low < place && w == low + place * One(b) + place * (2 * high)
    ensures Bit(w, place) == b
  {
    var q := One(b) + 2 * high;
    assert q * place == place * One(b) + place * (2 * high);
    ModUnique(w, place, q, low);
  }

  /** A bit below 12 is one of the low part. */
  lemma LowBit(low: nat, rest: nat, place: nat, half: nat)
    requires low < 0x1000 && place > 0 && 0x1000 == place * (2 * half)
    ensures Bit(low + 0x1000 * rest, place) == Bit(low, place)
  {
    var q, r := low / place, low % place;
    var w := low + 0x1000 * rest;
    assert low == place * q + r;
    assert 0x1000 * rest == place * (2 * (half * rest)) by {
      assert place * (2 * half) * rest == place * (2 * (half * rest));
    }
    assert w == (q + 2 * (half * rest)) * place + r by {
      assert (q + 2 * (half * rest)) * place == place * q + place * (2 * (half * rest));
    }
    ModUnique(w, place, q + 2 * (half * rest), r);
  }

  /** A bit above a split is one of the high part. */
  lemma HighBit(m: nat, low: nat, high: nat, place: nat)
    requires low < m && 0 < place
    ensures m * place > 0 && Bit(low + m * high, m * place) == Bit(high, place)
  {
    var w, q, r := low + m * high, high / place, high % place;
    MulAway(place, m);
    assert w == q * (m * place) + (m * r + low) by {
      assert high == place * q + r;
      assert m * high == m * (place * q) + m * r;
      assert m * (place * q) == q * (m * place);
    }
    assert 0 <= m * r && m * r + m <= m * place by {
      MulAway(place - r, m);
      assert m * place - m * r == (place - r) * m;
    }
    ModUnique(w, m * place, q, m * r + low);
  }

  /** Four flags in a row, from bit 0 up. */
  lemma FourFlags(a: bool, b: bool, c: bool, d: bool, rest: nat)
    ensures
      var w := One(a) + 2 * One(b) + 4 * One(c) + 8 * One(d) + 16 * rest;
      Bit(w, 1) == a && Bit(w, 2) == b && Bit(w, 4) == c && Bit(w, 8) == d
  {
    hide Bit;
    var w := One(a) + 2 * One(b) + 4 * One(c) + 8 * One(d) + 16 * rest;
    BitAt(w, 1, 0, a, One(b) + 2 * One(c) + 4 * One(d) + 8 * rest);
    BitAt(w, 2, One(a), b, One(c) + 2 * One(d) + 4 * rest);
    BitAt(w, 4, One(a) + 2 * One(b), c, One(d) + 2 * rest);
    BitAt(w, 8, One(a) + 2 * One(b) + 4 * One(c), d, rest);
  }

  lemma LeafLowBits(l: LeafFields)
    requires LeafOk(l)
    ensures LeafLow(l) < 0x1000 && LeafLow(l) % 2 == 1 && Bit(LeafLow(l), 2) == l.page
    ensures Bit(LeafLow(l), 0x40) == l.user && Bit(LeafLow(l), 0x80) == l.readOnly
    ensures Bit(LeafLow(l), 0x400) == l.accessed && Bit(LeafLow(l), 0x800) == l.notGlobal
  {
    hide Bit;
    var flags := One(l.accessed) + 2 * One(l.notGlobal);
    var mid := One(l.user) + 2 * One(l.readOnly) + 4 * l.share + 16 * flags;
    BitAt(LeafLow(l), 2, 1, l.page, l.attr + 16 * mid);
    HighBit(0x40, 1 + 2 * One(l.page) + 4 * l.attr, mid, 1);
    HighBit(0x40, 1 + 2 * One(l.page) + 4 * l.attr, mid, 2);
    BitAt(mid, 1, 0, l.user, One(l.readOnly) + 2 * l.share + 8 * flags);
    BitAt(mid, 2, One(l.user), l.readOnly, l.share + 4 * flags);
    LeafTopFlags(l);
  }

  lemma LeafTopFlags(l: LeafFields)
    requires LeafOk(l)
    ensures Bit(LeafLow(l), 0x400) == l.accessed && Bit(LeafLow(l), 0x800) == l.notGlobal
  {
    hide Bit;
    var flags := One(l.accessed) + 2 * One(l.notGlobal);
    var below := 1 + 2 * One(l.page) + 4 * l.attr + 0x40 * One(l.user) + 0x80 * One(l.readOnly) + 0x100 * l.share;
    FourFlags(l.accessed, l.notGlobal, false, false, 0);
    HighBit(0x400, below, flags, 1);
    HighBit(0x400, below, flags, 2);
  }

  lemma LeafHighBits(l: LeafFields)
    requires LeafOk(l)
    ensures LeafHigh(l) < 0x1_0000 && Bit(LeafHigh(l), 0x20) == l.pxn && Bit(LeafHigh(l), 0x40) == l.uxn
  {
    hide Bit;
    BitAt(LeafHigh(l), 0x20, l.upper, l.pxn, One(l.uxn) + 2 * l.soft);
    BitAt(LeafHigh(l), 0x40, l.upper + 0x20 * One(l.pxn), l.uxn, l.soft);
  }

  lemma TableHighBits(t: TableFields)
    requires TableOk(t)
    ensures TableHigh(t) < 0x1_0000 && Bit(TableHigh(t), 0x800) == t.pxn && Bit(TableHigh(t), 0x1000) == t.xn
    ensures Bit(TableHigh(t), 0x2000) == t.noUser && Bit(TableHigh(t), 0x4000) == t.readOnly
  {
    hide Bit;
    var flags := One(t.pxn) + 2 * One(t.xn) + 4 * One(t.noUser) + 8 * One(t.readOnly) + 16 * One(t.top);
    FourFlags(t.pxn, t.xn, t.noUser, t.readOnly, One(t.top));
    HighBit(0x800, t.mid, flags, 1);
    HighBit(0x800, t.mid, flags, 2);
    HighBit(0x800, t.mid, flags, 4);
    HighBit(0x800, t.mid, flags, 8);
  }

  /** The decoder reads every field of a leaf where the encoder put it. */
  lemma DecodeLeaf(l: LeafFields)
    requires LeafOk(l)
    ensures LeafWord(l) < TWO64
    ensures
      var d := Decode(LeafWord(l));
      && d == Desc(true, l.page, !l.page, 0x1000 * l.frame, l.notGlobal, l.accessed,
                   2 * One(l.readOnly) + One(l.user), l.uxn, l.pxn)
  {
    hide Bit, LeafLow, LeafHigh;
    var low, high, w := LeafLow(l), LeafHigh(l), LeafWord(l);
    LeafLowBits(l);
    LeafHighBits(l);
    Split(low, l.frame, high);
    var rest := l.frame + 0x10_0000_0000 * high;
    assert w == low + 0x1000 * rest;
    LowBit(low, rest, 0x40, 0x20);
    LowBit(low, rest, 0x80, 0x10);
    LowBit(low, rest, 0x400, 2);
    LowBit(low, rest, 0x800, 1);
    HighBit(0x1_0000_0000_0000, low + 0x1000 * l.frame, high, 0x20);
    HighBit(0x1_0000_0000_0000, low + 0x1000 * l.frame, high, 0x40);
    TypeBits(low, rest, l.page);
  }

  lemma TypeBits(low: nat, rest: nat, page: bool)
    requires low < 0x1000 && low % 2 == 1 && Bit(low, 2) == page
    ensures (low + 0x1000 * rest) % 2 == 1 && (low + 0x1000 * rest) % 4 == if page then 3 else 1
  {
  }

  lemma ThreeBelow(low: nat, rest: nat)
    ensures (3 + 4 * low + 0x1000 * rest) % 2 == 1 && (3 + 4 * low + 0x1000 * rest) % 4 == 3
  {
  }

  /** And every field of a table descriptor. */
  lemma DecodeTable(t: TableFields)
    requires TableOk(t)
    ensures TableWord(t) < TWO64
    ensures
      var d := Decode(TableWord(t));
      d.valid && d.table && d.address == 0x1000 * t.frame
    ensures AttrsOf(TableWord(t)) == TableAttrs(t.pxn, t.xn, t.noUser, t.readOnly)
  {
    hide Bit, TableHigh;
    var low, high, w := TableLow(t), TableHigh(t), TableWord(t);
    TableHighBits(t);
    Split(low, t.frame, high);
    var rest := t.frame + 0x10_0000_0000 * high;
    assert w == low + 0x1000 * rest;
    HighBit(0x1_0000_0000_0000, low + 0x1000 * t.frame, high, 0x800);
    HighBit(0x1_0000_0000_0000, low + 0x1000 * t.frame, high, 0x1000);
    HighBit(0x1_0000_0000_0000, low + 0x1000 * t.frame, high, 0x2000);
    HighBit(0x1_0000_0000_0000, low + 0x1000 * t.frame, high, 0x4000);
    ThreeBelow(t.low, rest);
  }

  // ----- the regime of an address, by the positions of the control fields -----

  predicate High(va: nat) {
    va / 0x80_0000_0000_0000 % 2 == 1
  }

  /** Top-byte-ignore of the half the address is in. */
  predicate Tagged(c: Control, va: nat) {
    c.tcr / (if High(va) then 0x8000_0000_0000_0000 else 0x100_0000) % 2 == 1
  }

  function Width(c: Control, va: nat): nat {
    if Tagged(c, va) then 56 else 64
  }

  /** The address proper, without its tag. */
  function Proper(c: Control, va: u64): u64 {
    if Tagged(c, va) then va % 0x100_0000_0000_0000 else va
  }

  function Size(c: Control, va: nat): nat {
    64 - (if High(va) then c.tcr / 0x1_0000 % 64 else c.tcr % 64)
  }

  predicate Disabled(c: Control, va: nat) {
    c.tcr / (if High(va) then 0x80_0000 else 0x80) % 2 == 1
  }

  /** Bits 47 to 1 of the half's base register. */
  function Base(c: Control, va: nat): nat {
    var ttbr := if High(va) then c.ttbr1 else c.ttbr0;
    ttbr / 2 % 0x8000_0000_0000 * 2
  }

  function Limit(c: Control): nat {
    if c.tcr / 0x800_0000 % 64 == 0 then 0x1_0000_0000 else 0x10_0000_0000
  }

  /** Does the address lie in its half: the lowest or the highest 2^size addresses? */
  predicate InHalf(c: Control, va: u64) {
    if High(va) then Pow2(Width(c, va)) <= Proper(c, va) + Pow2(Size(c, va))
    else Proper(c, va) < Pow2(Size(c, va))
  }

  /** Where the index of a level starts in the address. */
  function Shift(level: nat): nat
    requires level <= 3
  {
    12 + 9 * (3 - level)
  }

  /** The level whose nine index bits hold the top bit of a region of that size. */
  predicate StartsAt(size: nat, level: nat) {
    level <= 2 && Shift(level) < size <= Shift(level) + 9
  }

  function EntryAddress(base: nat, a: nat, level: nat): nat
    requires level <= 3
  {
    base + 8 * (a / Pow2(Shift(level)) % 512)
  }

  // ----- a chain of tables and what it ends in -----

  /** From the table at `base` on, the entries of `a` are those tables, all below the output limit. */
  predicate Chained(m: Ram, base: nat, a: nat, level: nat, tables: seq<TableFields>, limit: nat)
    decreases |tables|
  {
    tables == [] ||
    (&& level < 3 && TableOk(tables[0]) && 0x1000 * tables[0].frame < limit
     && Load(m, EntryAddress(base, a, level), 8) == Some(TableWord(tables[0]))
     && Chained(m, 0x1000 * tables[0].frame, a, level + 1, tables[1..], limit))
  }

  function LastBase(base: nat, tables: seq<TableFields>): nat {
    if tables == [] then base else 0x1000 * tables[|tables| - 1].frame
  }

  datatype Ending = Unbacked | Invalid(word: nat) | FarTable(t: TableFields) | LeafEntry(l: LeafFields)

  predicate EndsIn(m: Ram, base: nat, a: nat, level: nat, e: Ending, limit: nat) {
    level <= 3 &&
    var w := Load(m, EntryAddress(base, a, level), 8);
    match e
    case Unbacked => w == None
    case Invalid(word) => w == Some(word) && word % 2 == 0
    case FarTable(t) => w == Some(TableWord(t)) && TableOk(t) && level < 3 && 0x1000 * t.frame >= limit
    case LeafEntry(l) => w == Some(LeafWord(l)) && LeafOk(l) && (l.page ==> level == 3)
  }

  /** The syndrome of a fault status, by its bit positions: class 0x20/0x21 for a fetch and 0x24/0x25 for data, from
      EL0 or not; IL; WnR; the status. */
  function Syn(acc: Access, status: nat): nat {
    var ec := if acc.fetch then (if acc.el == 0 then 0x20 else 0x21) else if acc.el == 0 then 0x24 else 0x25;
    0x400_0000 * ec + 0x200_0000 + (if acc.write && !acc.fetch then 0x40 else 0) + status
  }

  predicate AnyPxn(ts: seq<TableFields>) {
    exists i :: 0 <= i < |ts| && ts[i].pxn
  }

  predicate AnyXn(ts: seq<TableFields>) {
    exists i :: 0 <= i < |ts| && ts[i].xn
  }

  predicate AnyNoUser(ts: seq<TableFields>) {
    exists i :: 0 <= i < |ts| && ts[i].noUser
  }

  predicate AnyReadOnly(ts: seq<TableFields>) {
    exists i :: 0 <= i < |ts| && ts[i].readOnly
  }

  /** The rights, access by access: what the leaf gives and no table above takes away. */
  predicate Allowed(l: LeafFields, ts: seq<TableFields>, acc: Access) {
    var user := l.user && !AnyNoUser(ts);
    var writable := !l.readOnly && !AnyReadOnly(ts);
    if acc.fetch then
      if acc.el == 0 then user && !l.uxn && !AnyXn(ts) else !l.pxn && !AnyPxn(ts)
    else
      (acc.el == 0 ==> user) && (acc.write ==> writable)
  }

  /** The leaf's block, and the address's place in it. */
  function Output(l: LeafFields, a: nat, level: nat): int
    requires level <= 3
  {
    0x1000 * l.frame / Pow2(Shift(level)) * Pow2(Shift(level)) + a % Pow2(Shift(level))
  }

  /** What a chain of tables that ends so comes to. */
  ghost predicate Comes(answer: Answer, e: Ending, ts: seq<TableFields>, a: nat, level: nat, limit: nat, acc: Access)
    requires level <= 3
  {
    match e
    case Unbacked => answer.Refused? && answer.esr == Syn(acc, 0x2C) && answer.far == a
    case Invalid(_) => answer.Refused? && answer.esr == Syn(acc, 0x04 + level) && answer.far == a
    case FarTable(_) => answer.Refused? && answer.esr == Syn(acc, level) && answer.far == a
    case LeafEntry(l) =>
      var status := if level == 0 then 0x04 else if Output(l, a, level) >= limit then level
                    else if !l.accessed then 0x08 + level else 0x0C + level;
      if level > 0 && Output(l, a, level) < limit && l.accessed && Allowed(l, ts, acc) then
        answer.Served? && answer.pa == Output(l, a, level)
      else answer.Refused? && answer.esr == Syn(acc, status) && answer.far == a
  }

  // ----- the walk is that -----

  lemma {:induction false} Pow2Sum(a: nat, b: nat)
    ensures Pow2(a + b) == Pow2(a) * Pow2(b)
  {
    if b > 0 {
      Pow2Sum(a, b - 1);
      assert Pow2(a) * Pow2(b) == 2 * (Pow2(a) * Pow2(b - 1));
    }
  }

  lemma Pow2Values()
    ensures Pow2(8) == 0x100 && Pow2(9) == 512 && Pow2(12) == 0x1000 && Pow2(21) == 0x20_0000 && Pow2(30) == 0x4000_0000
    ensures Pow2(39) == 0x80_0000_0000
  {
    assert Pow2(4) == 16;
    assert Pow2(8) == 256 by {
      Pow2Sum(4, 4);
    }
    assert Pow2(12) == 0x1000 by {
      Pow2Sum(8, 4);
    }
    Pow2Sum(12, 9);
    Pow2Sum(21, 9);
    Pow2Sum(30, 9);
  }

  lemma ShiftIsSpan(level: nat)
    requires level <= 3
    ensures Pow2(Shift(level)) == Span(level)
  {
    hide Pow2;
    Pow2Values();
  }

  lemma EntryIsIndexed(base: nat, a: nat, level: nat)
    requires level <= 3
    ensures EntryAddress(base, a, level) == base + TableIndex(a, level)
  {
    hide Pow2;
    ShiftIsSpan(level);
  }

  lemma SyndromeIs(acc: Access, cls: FaultClass, level: int)
    requires acc.el < 3 && LevelInRange(cls, level)
    ensures Syndrome(acc, cls, level) == Syn(acc,
              match cls
              case TranslationFault => 4 + level
              case NoWalk => 0x2C
              case AccessFlag => 8 + level
              case Permission => 12 + level
              case AddressSize => if level < 0 then 0x29 else level
              case Alignment => 0x21)
  {
  }

  /** The constraints gathered from the tables above. */
  predicate Gathers(attrs: TableAttrs, ts: seq<TableFields>) {
    attrs == TableAttrs(AnyPxn(ts), AnyXn(ts), AnyNoUser(ts), AnyReadOnly(ts))
  }

  lemma GathersMore(attrs: TableAttrs, ts: seq<TableFields>, t: TableFields)
    requires Gathers(attrs, ts)
    ensures Gathers(Merge(attrs, TableAttrs(t.pxn, t.xn, t.noUser, t.readOnly)), ts + [t])
  {
    var more := ts + [t];
    assert more[|ts|] == t;
    assert forall i :: 0 <= i < |ts| ==> more[i] == ts[i];
  }

  lemma LeafComes(l: LeafFields, attrs: TableAttrs, ts: seq<TableFields>, limit: nat, a: u64, level: nat, acc: Access)
    requires LeafOk(l) && Gathers(attrs, ts) && level <= 3 && limit <= 0x10_0000_0000 && acc.el < 3
    ensures Comes(Verdict(LeafAt(Decode(LeafWord(l)), attrs, limit, a, level), a, acc), LeafEntry(l), ts, a, level,
                  limit, acc)
  {
    hide LeafWord, Decode, Syndrome, Syn, Output, Allowed, Permits, MergedAp, Gathers;
    DecodeLeaf(l);
    OutputIsPlaced(l, a, level);
    SyndromeIs(acc, TranslationFault, 0);
    if level > 0 {
      SyndromeIs(acc, AddressSize, level);
      SyndromeIs(acc, AccessFlag, level);
      SyndromeIs(acc, Permission, level);
    }
    RightsMerge(l, attrs, ts, acc);
  }

  lemma OutputIsPlaced(l: LeafFields, a: nat, level: nat)
    requires level <= 3
    ensures Output(l, a, level) == 0x1000 * l.frame - 0x1000 * l.frame % Span(level) + a % Span(level)
  {
    hide Pow2, Span;
    ShiftIsSpan(level);
    var x, p := 0x1000 * l.frame, Span(level);
    assert x == x / p * p + x % p;
  }

  lemma RightsMerge(l: LeafFields, attrs: TableAttrs, ts: seq<TableFields>, acc: Access)
    requires Gathers(attrs, ts) && acc.el < 3
    ensures
      var ap := MergedAp(2 * One(l.readOnly) + One(l.user), attrs);
      Permits(ap, l.uxn || attrs.xn, l.pxn || attrs.pxn, acc) <==> Allowed(l, ts, acc)
  {
    hide AnyPxn, AnyXn, AnyNoUser, AnyReadOnly;
  }

  lemma {:induction false} DescendComes(m: Ram, limit: nat, a: u64, level: nat, base: nat, attrs: TableAttrs,
          done: seq<TableFields>, tables: seq<TableFields>, e: Ending, acc: Access)
    requires level + |tables| <= 3 && limit <= 0x10_0000_0000 && acc.el < 3
    requires Gathers(attrs, done) && Chained(m, base, a, level, tables, limit)
    requires EndsIn(m, LastBase(base, tables), a, level + |tables|, e, limit)
    ensures
      var verdict := Verdict(Descend(m, limit, a, level, base, attrs), a, acc);
      Comes(verdict, e, done + tables, a, level + |tables|, limit, acc)
    decreases |tables|
  {
    hide Load, Decode, LeafWord, TableWord, AttrsOf, LeafAt, Gathers, Comes, TableIndex, EntryAddress;
    EntryIsIndexed(base, a, level);
    if tables == [] {
      assert done + tables == done;
      EndComes(m, limit, a, level, base, attrs, done, e, acc);
    } else {
      var t, rest := tables[0], tables[1..];
      DecodeTable(t);
      GathersMore(attrs, done, t);
      assert done + tables == (done + [t]) + rest;
      assert LastBase(0x1000 * t.frame, rest) == LastBase(base, tables);
      var merged := Merge(attrs, AttrsOf(TableWord(t)));
      DescendComes(m, limit, a, level + 1, 0x1000 * t.frame, merged, done + [t], rest, e, acc);
      assert Descend(m, limit, a, level, base, attrs) ==
             Descend(m, limit, a, level + 1, 0x1000 * t.frame, Merge(attrs, AttrsOf(TableWord(t))));
    }
  }

  lemma EndComes(m: Ram, limit: nat, a: u64, level: nat, base: nat, attrs: TableAttrs, done: seq<TableFields>,
          e: Ending, acc: Access)
    requires level <= 3 && limit <= 0x10_0000_0000 && acc.el < 3 && Gathers(attrs, done)
    requires EndsIn(m, base, a, level, e, limit)
    ensures Comes(Verdict(Descend(m, limit, a, level, base, attrs), a, acc), e, done, a, level, limit, acc)
  {
    hide Load, LeafWord, TableWord, AttrsOf, LeafAt, Gathers, TableIndex, EntryAddress, Syndrome, Syn, Allowed, Output;
    EntryIsIndexed(base, a, level);
    match e
    case Unbacked => SyndromeIs(acc, NoWalk, -1);
    case Invalid(_) => SyndromeIs(acc, TranslationFault, level);
    case FarTable(t) =>
      DecodeTable(t);
      SyndromeIs(acc, AddressSize, level);
    case LeafEntry(l) =>
      DecodeLeaf(l);
      LeafComes(l, attrs, done, limit, a, level, acc);
      assert Descend(m, limit, a, level, base, attrs) == LeafAt(Decode(LeafWord(l)), attrs, limit, a, level);
  }

  lemma LeavesProper(c: Control, va: u64)
    ensures Proper(c, va) == StripTag(c, va) && High(Proper(c, va)) == High(va)
    ensures UseTtbr1(va) == High(va) && UseTtbr1(Proper(c, va)) == High(va)
  {
    if Tagged(c, va) {
      TagAway(va);
    }
  }

  lemma TagAway(va: u64)
    ensures va % 0x100_0000_0000_0000 / 0x80_0000_0000_0000 == va / 0x80_0000_0000_0000 % 2
  {
  }

  lemma FieldsAgree(c: Control, va: u64)
    ensures
      var a := Proper(c, va);
      && TagIgnored(c, a) == Tagged(c, va) && InputSize(c, a) == Size(c, va) && OutputLimit(c) == Limit(c)
      && Bit(c.tcr, if UseTtbr1(a) then 0x80_0000 else 0x80) == Disabled(c, va)
      && RawBase(if UseTtbr1(a) then c.ttbr1 else c.ttbr0) == Base(c, va)
  {
    hide UseTtbr1, High;
    LeavesProper(c, va);
    BaseBits(c.ttbr0);
    BaseBits(c.ttbr1);
  }

  lemma BaseBits(t: u64)
    ensures RawBase(t) == t / 2 % 0x8000_0000_0000 * 2
  {
  }

  lemma StartIs(size: nat)
    ensures (size < 25 || size > 48) <==> StartLevel(size).None?
    ensures forall level: nat :: 25 <= size <= 48 && StartsAt(size, level) ==> StartLevel(size) == Some(level)
  {
  }

  /** Every width the granule can walk starts at some level. */
  lemma StartExists(size: nat) returns (level: nat)
    requires 25 <= size <= 48
    ensures StartsAt(size, level)
  {
    level := if size <= 30 then 2 else if size <= 39 then 1 else 0;
  }

  /** The region test is membership of the lowest or highest 2^size addresses. */
  lemma HalfIsRegion(a: nat, size: nat, width: nat, high: bool)
    requires size <= width && a < Pow2(width)
    ensures RegionOk(a, size, width, high) <==>
            if high then Pow2(width) <= a + Pow2(size) else a < Pow2(size)
  {
    hide Pow2;
    if size < width {
      Pow2Sum(size, width - size);
      RowTest(a, Pow2(size), Pow2(width - size));
    }
  }

  lemma RowTest(a: nat, p: nat, mask: nat)
    requires p > 0 && mask > 0 && a < p * mask
    ensures (a / p) % mask == mask - 1 <==> p * mask <= a + p
    ensures (a / p) % mask == 0 <==> a < p
  {
    QuotientBelow(a, p, mask);
    SmallRemainder(a / p, mask);
    TopRow(p, a / p, a % p, mask);
    BottomRow(p, a / p, a % p);
  }

  lemma QuotientBelow(a: nat, p: nat, mask: nat)
    requires p > 0 && a < p * mask
    ensures a / p < mask && a == p * (a / p) + a % p
  {
    var q := a / p;
    MulAway(q - mask + 1, p);
    assert (q - mask + 1) * p == p * q - p * mask + p;
  }

  lemma SmallRemainder(q: nat, m: nat)
    requires q < m
    ensures q % m == q
  {
  }

  lemma TopRow(p: nat, q: nat, r: nat, mask: nat)
    requires p > 0 && r < p && q < mask
    ensures q == mask - 1 <==> p * mask <= p * q + r + p
  {
    assert p * mask - p * q == (mask - q) * p;
    if q < mask - 1 {
      MulAway(mask - q - 1, p);
      assert (mask - q) * p == (mask - q - 1) * p + p;
    } else {
      assert (mask - q) * p == p;
    }
  }

  lemma BottomRow(p: nat, q: nat, r: nat)
    requires p > 0 && r < p
    ensures q == 0 <==> p * q + r < p
  {
    if q > 0 {
      MulAway(q, p);
      assert p * q == q * p;
    }
  }

  lemma Widths()
    ensures Pow2(56) == 0x100_0000_0000_0000 && Pow2(64) == TWO64
  {
    hide Pow2;
    Pow2Values();
    Pow2Sum(39, 9);
    Pow2Sum(48, 8);
    Pow2Sum(56, 8);
  }

  /** The walk begins at level `start`, goes through those tables and ends so. */
  predicate Follows(c: Control, m: Ram, va: u64, start: nat, tables: seq<TableFields>, e: Ending) {
    var base, a := Base(c, va) / 0x1000 * 0x1000, Proper(c, va);
    && 25 <= Size(c, va) <= 48 && StartsAt(Size(c, va), start) && InHalf(c, va) && !Disabled(c, va)
    && Base(c, va) < Limit(c) && start + |tables| <= 3 && Chained(m, base, a, start, tables, Limit(c))
    && EndsIn(m, LastBase(base, tables), a, start + |tables|, e, Limit(c))
  }

  /** A walk under a regime that lets it begin comes to what the chain of encoded tables ends in. */
  lemma WalkComes(c: Control, m: Ram, va: u64, acc: Access, start: nat, tables: seq<TableFields>, e: Ending)
    requires c.sctlr % 2 == 1 && acc.el < 3 && Follows(c, m, va, start, tables, e)
    ensures Comes(Walk(c, m, va, acc), e, tables, Proper(c, va), start + |tables|, Limit(c), acc)
  {
    hide Chained, EndsIn, Comes, Descend, Verdict, StartLevel, RegionOk, InHalf, StartsAt, Pow2, Geometry;
    var a := Proper(c, va);
    var base := Base(c, va) / 0x1000 * 0x1000;
    BeginsThere(c, va, start);
    assert Gathers(TableAttrs(false, false, false, false), []);
    assert [] + tables == tables;
    DescendComes(m, Limit(c), a, start, base, TableAttrs(false, false, false, false), [], tables, e, acc);
    LeavesProper(c, va);
  }

  lemma BeginsThere(c: Control, va: u64, start: nat)
    requires 25 <= Size(c, va) <= 48 && StartsAt(Size(c, va), start) && InHalf(c, va) && !Disabled(c, va)
    requires Base(c, va) < Limit(c)
    ensures Geometry(c, Proper(c, va)) == Begin(start, Base(c, va) / 0x1000 * 0x1000) && OutputLimit(c) == Limit(c)
  {
    hide StartLevel, RegionOk, Pow2, InputSize, TagIgnored, RawBase, OutputLimit, UseTtbr1, StartsAt, Bit;
    RegimeOf(c, va);
    StartIs(Size(c, va));
  }

  lemma RegimeOf(c: Control, va: u64)
    requires 25 <= Size(c, va) <= 48
    ensures
      var a := Proper(c, va);
      && TagIgnored(c, a) == Tagged(c, va) && InputSize(c, a) == Size(c, va) && OutputLimit(c) == Limit(c)
      && Bit(c.tcr, if UseTtbr1(a) then 0x80_0000 else 0x80) == Disabled(c, va)
      && RawBase(if UseTtbr1(a) then c.ttbr1 else c.ttbr0) == Base(c, va) && UseTtbr1(a) == High(va)
      && (RegionOk(a, Size(c, va), Width(c, va), High(va)) <==> InHalf(c, va))
  {
    hide Pow2, RegionOk, InputSize, TagIgnored, RawBase, OutputLimit, UseTtbr1, Bit;
    FieldsAgree(c, va);
    LeavesProper(c, va);
    Widths();
    HalfIsRegion(Proper(c, va), Size(c, va), Width(c, va), High(va));
  }

  /** What stops a walk before its first table. */
  datatype Barrier = NoWidth | Gap(start: nat) | Off(start: nat) | FarBase

  predicate Stands(c: Control, va: u64, b: Barrier) {
    match b
    case NoWidth => Size(c, va) < 25 || Size(c, va) > 48
    case Gap(start) => 25 <= Size(c, va) <= 48 && StartsAt(Size(c, va), start) && !InHalf(c, va)
    case Off(start) =>
      25 <= Size(c, va) <= 48 && StartsAt(Size(c, va), start) && InHalf(c, va) && Disabled(c, va)
    case FarBase => 25 <= Size(c, va) <= 48 && InHalf(c, va) && !Disabled(c, va) && Base(c, va) >= Limit(c)
  }

  /** The fault status of a walk that does not begin. */
  lemma WalkBlocked(c: Control, m: Ram, va: u64, acc: Access, b: Barrier)
    requires c.sctlr % 2 == 1 && acc.el < 3 && Stands(c, va, b)
    ensures
      var status :=
        match b case NoWidth => 4 case Gap(start) => 4 + start case Off(start) => 4 + start case FarBase => 0x29;
      var answer := Walk(c, m, va, acc);
      answer.Refused? && answer.esr == Syn(acc, status) && answer.far == Proper(c, va)
  {
    hide StartLevel, RegionOk, Pow2, InputSize, TagIgnored, RawBase, OutputLimit, UseTtbr1, StartsAt, Bit, Syn;
    hide Syndrome;
    EnabledIs(c);
    LeavesProper(c, va);
    FieldsAgree(c, va);
    StartIs(Size(c, va));
    SyndromeIs(acc, TranslationFault, 0);
    SyndromeIs(acc, AddressSize, -1);
    if 25 <= Size(c, va) <= 48 {
      RegimeOf(c, va);
      var start := StartExists(Size(c, va));
      SyndromeIs(acc, TranslationFault, start);
    }
  }

  lemma EnabledIs(c: Control)
    ensures Enabled(c) <==> c.sctlr % 2 == 1
  {
  }

  /** With stage 1 off, and at EL3, every address is its own. */
  lemma WalkIdentity(c: Control, m: Ram, va: u64, acc: Access)
    requires c.sctlr % 2 == 0 || acc.el == 3
    ensures Walk(c, m, va, acc) == Served(va)
  {
  }

  // ----- nothing is left out: every walk is of one of these shapes -----

  function LeafFieldsOf(w: nat): LeafFields {
    LeafFields(Bit(w, 2), w / 4 % 16, Bit(w, 0x40), Bit(w, 0x80), w / 0x100 % 4, Bit(w, 0x400), Bit(w, 0x800),
               w / 0x1000 % 0x10_0000_0000, w / 0x1_0000_0000_0000 % 32, Bit(w, 0x20_0000_0000_0000),
               Bit(w, 0x40_0000_0000_0000), w / 0x80_0000_0000_0000 % 512)
  }

  function TableFieldsOf(w: nat): TableFields {
    TableFields(w / 4 % 1024, w / 0x1000 % 0x10_0000_0000, w / 0x1_0000_0000_0000 % 2048,
                Bit(w, 0x800_0000_0000_0000), Bit(w, 0x1000_0000_0000_0000), Bit(w, 0x2000_0000_0000_0000),
                Bit(w, 0x4000_0000_0000_0000), Bit(w, 0x8000_0000_0000_0000))
  }

  /** One more digit of a mixed-radix number. */
  lemma NextDigit(w: nat, place: nat, radix: nat)
    requires place > 0 && radix > 0
    ensures w / place == w / place % radix + radix * (w / (place * radix))
  {
    var q, r := w / place / radix, w / place % radix;
    assert w / place == q * radix + r;
    assert w == q * (place * radix) + (place * r + w % place) by {
      assert w == place * (q * radix + r) + w % place;
      assert place * (q * radix) == q * (place * radix);
    }
    assert place * r + w % place < place * radix by {
      MulAway(radix - r, place);
      assert place * radix - place * r == (radix - r) * place;
    }
    MulAway(radix, place);
    assert place * r >= 0;
    ModUnique(w, place * radix, q, place * r + w % place);
  }

  function Quotient(w: nat, place: nat): nat
    requires place > 0
  {
    w / place
  }

  function DigitAt(w: nat, place: nat, radix: nat): (d: nat)
    requires place > 0 && radix > 0
    ensures d < radix
  {
    w / place % radix
  }

  lemma Digits(w: nat, place: nat, radix: nat, next: nat)
    requires place > 0 && radix > 0 && next == place * radix
    ensures Quotient(w, place) == DigitAt(w, place, radix) + radix * Quotient(w, next)
  {
    NextDigit(w, place, radix);
  }

  /** The fields of a leaf as digits of its word. */
  lemma LeafDigits(w: u64)
    ensures
      var l := LeafFieldsOf(w);
      && One(l.page) == DigitAt(w, 2, 2) && l.attr == DigitAt(w, 4, 16) && One(l.user) == DigitAt(w, 0x40, 2)
      && One(l.readOnly) == DigitAt(w, 0x80, 2) && l.share == DigitAt(w, 0x100, 4)
      && One(l.accessed) == DigitAt(w, 0x400, 2) && One(l.notGlobal) == DigitAt(w, 0x800, 2)
      && l.frame == DigitAt(w, 0x1000, 0x10_0000_0000) && l.upper == DigitAt(w, 0x1_0000_0000_0000, 32)
      && One(l.pxn) == DigitAt(w, 0x20_0000_0000_0000, 2) && One(l.uxn) == DigitAt(w, 0x40_0000_0000_0000, 2)
      && l.soft == DigitAt(w, 0x80_0000_0000_0000, 512)
  {
  }

  lemma TableDigits(w: u64)
    ensures
      var t := TableFieldsOf(w);
      && t.low == DigitAt(w, 4, 1024) && t.frame == DigitAt(w, 0x1000, 0x10_0000_0000)
      && t.mid == DigitAt(w, 0x1_0000_0000_0000, 2048) && One(t.pxn) == DigitAt(w, 0x800_0000_0000_0000, 2)
      && One(t.xn) == DigitAt(w, 0x1000_0000_0000_0000, 2) && One(t.noUser) == DigitAt(w, 0x2000_0000_0000_0000, 2)
      && One(t.readOnly) == DigitAt(w, 0x4000_0000_0000_0000, 2) && One(t.top) == DigitAt(w, 0x8000_0000_0000_0000, 2)
  {
  }

  lemma Ends(w: u64)
    ensures w % 2 == 1 ==> w == 1 + 2 * Quotient(w, 2)
    ensures w % 4 == 3 ==> w == 3 + 4 * Quotient(w, 4)
    ensures Quotient(w, 0x80_0000_0000_0000) == DigitAt(w, 0x80_0000_0000_0000, 512)
    ensures Quotient(w, 0x8000_0000_0000_0000) == DigitAt(w, 0x8000_0000_0000_0000, 2)
  {
  }

  lemma LeafLowRecovered(w: u64)
    requires w % 2 == 1
    ensures w == LeafLow(LeafFieldsOf(w)) + 0x1000 * Quotient(w, 0x1000)
  {
    hide Quotient, DigitAt, One, LeafFieldsOf;
    LeafDigits(w);
    Ends(w);
    Digits(w, 2, 2, 4);
    Digits(w, 4, 16, 0x40);
    Digits(w, 0x40, 2, 0x80);
    Digits(w, 0x80, 2, 0x100);
    Digits(w, 0x100, 4, 0x400);
    Digits(w, 0x400, 2, 0x800);
    Digits(w, 0x800, 2, 0x1000);
  }

  lemma LeafRecovered(w: u64)
    requires w % 2 == 1
    ensures LeafOk(LeafFieldsOf(w)) && LeafWord(LeafFieldsOf(w)) == w
  {
    hide Quotient, DigitAt, One, LeafFieldsOf, LeafLow;
    LeafDigits(w);
    Ends(w);
    LeafLowRecovered(w);
    Digits(w, 0x1000, 0x10_0000_0000, 0x1_0000_0000_0000);
    Digits(w, 0x1_0000_0000_0000, 32, 0x20_0000_0000_0000);
    Digits(w, 0x20_0000_0000_0000, 2, 0x40_0000_0000_0000);
    Digits(w, 0x40_0000_0000_0000, 2, 0x80_0000_0000_0000);
  }

  lemma TableRecovered(w: u64)
    requires w % 4 == 3
    ensures TableOk(TableFieldsOf(w)) && TableWord(TableFieldsOf(w)) == w
  {
    hide Quotient, DigitAt, One, TableFieldsOf;
    TableDigits(w);
    Ends(w);
    Digits(w, 4, 1024, 0x1000);
    Digits(w, 0x1000, 0x10_0000_0000, 0x1_0000_0000_0000);
    Digits(w, 0x1_0000_0000_0000, 2048, 0x800_0000_0000_0000);
    Digits(w, 0x800_0000_0000_0000, 2, 0x1000_0000_0000_0000);
    Digits(w, 0x1000_0000_0000_0000, 2, 0x2000_0000_0000_0000);
    Digits(w, 0x2000_0000_0000_0000, 2, 0x4000_0000_0000_0000);
    Digits(w, 0x4000_0000_0000_0000, 2, 0x8000_0000_0000_0000);
  }

  lemma LoadedWord(m: Ram, at: nat)
    ensures Load(m, at, 8).Some? ==> Load(m, at, 8).value < TWO64
  {
    LittleEndianBound(Bytes(m.data, at, 8));
    Pow256Values();
  }

  lemma {:induction false} ChainExists(m: Ram, base: nat, a: nat, level: nat, limit: nat)
    returns (tables: seq<TableFields>, e: Ending)
    requires level <= 3
    ensures level + |tables| <= 3 && Chained(m, base, a, level, tables, limit)
    ensures EndsIn(m, LastBase(base, tables), a, level + |tables|, e, limit)
    decreases 3 - level
  {
    hide Load, LeafWord, TableWord, LeafFieldsOf, TableFieldsOf, EntryAddress, LeafOk, TableOk;
    var loaded := Load(m, EntryAddress(base, a, level), 8);
    LoadedWord(m, EntryAddress(base, a, level));
    tables := [];
    if loaded.None? {
      e := Unbacked;
    } else if loaded.value % 2 == 0 {
      e := Invalid(loaded.value);
    } else if loaded.value % 4 == 3 && level < 3 {
      var t := TableFieldsOf(loaded.value);
      TableRecovered(loaded.value);
      if 0x1000 * t.frame >= limit {
        e := FarTable(t);
      } else {
        var rest;
        rest, e := ChainExists(m, 0x1000 * t.frame, a, level + 1, limit);
        tables := [t] + rest;
        assert tables[1..] == rest;
        assert LastBase(base, tables) == LastBase(0x1000 * t.frame, rest);
      }
    } else {
      LeafRecovered(loaded.value);
      PageType(loaded.value);
      e := LeafEntry(LeafFieldsOf(loaded.value));
    }
  }

  lemma PageType(w: u64)
    requires w % 2 == 1
    ensures LeafFieldsOf(w).page <==> w % 4 == 3
  {
    hide LeafWord;
    var half := w / 2;
    assert w == 2 * half + 1;
  }

  /** Every translated address of every memory and every setting of the registers is covered: a barrier stands, or the
      walk begins and its chain of tables ends in one of the ways above. */
  lemma EveryWalkIsCovered(c: Control, m: Ram, va: u64)
    ensures
      || (exists b :: Stands(c, va, b))
      || exists start: nat, tables, e :: Follows(c, m, va, start, tables, e)
  {
    hide Chained, EndsIn, StartsAt, InHalf, Disabled, Base, Limit, Proper;
    if Size(c, va) < 25 || Size(c, va) > 48 {
      assert Stands(c, va, NoWidth);
    } else {
      var start := StartExists(Size(c, va));
      StartLow(Size(c, va), start);
      if !InHalf(c, va) {
        assert Stands(c, va, Gap(start));
      } else if Disabled(c, va) {
        assert Stands(c, va, Off(start));
      } else if Base(c, va) >= Limit(c) {
        assert Stands(c, va, FarBase);
      } else {
        var tables, e := ChainExists(m, Base(c, va) / 0x1000 * 0x1000, Proper(c, va), start, Limit(c));
        assert Follows(c, m, va, start, tables, e);
      }
    }
  }

  lemma StartLow(size: nat, start: nat)
    requires StartsAt(size, start)
    ensures start <= 2
  {
  }
}
