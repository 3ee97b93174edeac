/** Stage-1 translation: the table walk, the translation cache in front of it, and what the cache may answer. */
module Translation {
  import opened Words
  import opened FlatMemory
  import ExceptionState

  // ----- control registers, accesses and syndromes -----

  /** The five registers whose change invalidates the cache, read live on every access. */
  datatype Control = Control(sctlr: u64, tcr: u64, ttbr0: u64, ttbr1: u64, mair: u64)

  type El = ExceptionState.Level

  datatype Access = Access(el: El, write: bool, fetch: bool)

  datatype FaultClass = TranslationFault | NoWalk | AccessFlag | Permission | AddressSize | Alignment

  const PAGE: nat := 0x1000
  const SETS: nat := 4096

  /** SCTLR.M: is translation on at all? */
  predicate Enabled(c: Control) {
    Bit(c.sctlr, 1)
  }

  predicate AlignmentRequired(c: Control, el: El) {
    if el == 0 then Bit(c.sctlr, 0x10) else Bit(c.sctlr, 2)
  }

  /** The levels each class can report; anything else is refused by the encoder. */
  predicate LevelInRange(cls: FaultClass, level: int) {
    match cls
    case TranslationFault => 0 <= level <= 3
    case AccessFlag => 1 <= level <= 3
    case Permission => 1 <= level <= 3
    case AddressSize => -1 <= level <= 3
    case NoWalk => level == -1
    case Alignment => level == -1
  }

  function FaultStatus(cls: FaultClass, level: int): (dfsc: nat)
    requires LevelInRange(cls, level)
    ensures dfsc < 0x40
  {
    match cls
    case TranslationFault => 0x04 + level
    case NoWalk => 0x2C
    case AccessFlag => 0x08 + level
    case Permission => 0x0C + level
    case AddressSize => if level < 0 then 0x29 else level
    case Alignment => 0x21
  }

  function Syndrome(acc: Access, cls: FaultClass, level: int): u32
    requires LevelInRange(cls, level)
  {
    var lower := acc.el < ExceptionState.Route(acc.el);
    var ec := if acc.fetch then (if lower then 0x20 else 0x21) else (if lower then 0x24 else 0x25);
    ec * 0x400_0000 + 0x200_0000 + (if !acc.fetch && acc.write then 0x40 else 0) + FaultStatus(cls, level)
  }

  predicate Permits(ap: nat, xn: bool, pxn: bool, acc: Access) {
    var user, ro := ap % 2 == 1, Bit(ap, 2);
    if acc.fetch then
      if acc.el == 0 then user && !xn else !pxn
    else if acc.el == 0 then
      user && (acc.write ==> !ro)
    else
      acc.write ==> !ro
  }

  // ----- the walk -----

  datatype Desc = Desc(valid: bool, table: bool, block: bool, address: nat,
                         ng: bool, af: bool, ap: nat, xn: bool, pxn: bool)

  /** Constraints a table descriptor puts on everything below it. */
  datatype TableAttrs = TableAttrs(pxn: bool, xn: bool, apt0: bool, apt1: bool)

  function Decode(raw: nat): (d: Desc)
    ensures d.ap < 4
  {
    Desc(raw % 2 == 1, raw % 4 == 3, raw % 4 == 1, ((raw / PAGE) % 0x10_0000_0000) * PAGE,
         Bit(raw, 0x800), Bit(raw, 0x400),
         (if Bit(raw, 0x80) then 2 else 0) + (if Bit(raw, 0x40) then 1 else 0),
         Bit(raw, 0x40_0000_0000_0000), Bit(raw, 0x20_0000_0000_0000))
  }

  function AttrsOf(raw: nat): TableAttrs {
    TableAttrs(Bit(raw, 0x800_0000_0000_0000), Bit(raw, 0x1000_0000_0000_0000),
               Bit(raw, 0x2000_0000_0000_0000), Bit(raw, 0x4000_0000_0000_0000))
  }

  function Merge(a: TableAttrs, b: TableAttrs): TableAttrs {
    TableAttrs(a.pxn || b.pxn, a.xn || b.xn, a.apt0 || b.apt0, a.apt1 || b.apt1)
  }

  function MergedAp(ap: nat, t: TableAttrs): (r: nat)
    requires ap < 4
    ensures r < 4
  {
    var low := if t.apt0 then ap / 2 * 2 else ap;
    if t.apt1 && low < 2 then low + 2 else low
  }

  /** Bytes one entry covers at each level of the 4 KiB granule. */
  function Span(level: nat): (n: nat)
    requires level <= 3
    ensures n > 0
  {
    match level
    case 0 => 0x80_0000_0000
    case 1 => 0x4000_0000
    case 2 => 0x20_0000
    case _ => PAGE
  }

  function TableIndex(va: nat, level: nat): nat
    requires level <= 3
  {
    ((va / Span(level)) % 512) * 8
  }

  predicate UseTtbr1(va: nat) {
    Bit(va, 0x80_0000_0000_0000)
  }

  predicate TagIgnored(c: Control, va: nat) {
    Bit(c.tcr, if UseTtbr1(va) then 0x8000_0000_0000_0000 else 0x100_0000)
  }

  /** The address with its ignored tag byte cleared. */
  function StripTag(c: Control, va: u64): u64 {
    if TagIgnored(c, va) then va % 0x100_0000_0000_0000 else va
  }

  function InputSize(c: Control, va: nat): nat {
    64 - (if UseTtbr1(va) then (c.tcr / 0x1_0000) % 64 else c.tcr % 64)
  }

  function StartLevel(inputSize: nat): (r: Option<nat>)
    ensures r.Some? ==> r.value <= 2
  {
    if inputSize < 25 || inputSize > 48 then None else Some(4 - (inputSize - 4) / 9)
  }

  /** Are the bits above the input size the sign extension the region requires? */
  predicate RegionOk(va: nat, inputSize: nat, addrSize: nat, ttbr1: bool) {
    inputSize >= addrSize ||
    var mask := Pow2(addrSize - inputSize);
    var top := (va / Pow2(inputSize)) % mask;
    if ttbr1 then top == mask - 1 else top == 0
  }

  function OutputLimit(c: Control): nat {
    if (c.tcr / 0x800_0000) % 64 == 0 then 0x1_0000_0000 else 0x10_0000_0000
  }

  /** TTBR bits [47:1]. */
  function RawBase(ttbr: u64): nat {
    ttbr % 0x1_0000_0000_0000 - ttbr % 2
  }

  datatype Start = Blocked(cls: FaultClass, at: int) | Begin(level: nat, base: nat)

  /** Everything the walk decides before it reads memory. */
  function Geometry(c: Control, va: nat): (s: Start)
    ensures s.Blocked? ==> LevelInRange(s.cls, s.at)
    ensures s.Begin? ==> s.level <= 2
  {
    var hi := UseTtbr1(va);
    var size := InputSize(c, va);
    match StartLevel(size)
    case None => Blocked(TranslationFault, 0)
    case Some(level) =>
      if !RegionOk(va, size, if TagIgnored(c, va) then 56 else 64, hi) then Blocked(TranslationFault, level)
      else if Bit(c.tcr, if hi then 0x80_0000 else 0x80) then Blocked(TranslationFault, level)
      else
        var base := RawBase(if hi then c.ttbr1 else c.ttbr0);
        if base >= OutputLimit(c) then Blocked(AddressSize, -1) else Begin(level, PAGE * (base / PAGE))
  }

  /** The access-independent outcome of a walk. */
  datatype Resolution =
    | NoLeaf(cls: FaultClass, at: int)
    | Leaf(level: nat, pa: nat, ap: nat, xn: bool, pxn: bool, ng: bool)

  predicate LegalResolution(r: Resolution) {
    match r
    case NoLeaf(cls, at) => LevelInRange(cls, at)
    case Leaf(level, pa, ap, _, _, _) => 1 <= level <= 3 && pa < 0x10_0000_0000 && ap < 4
  }

  function LeafAt(d: Desc, attrs: TableAttrs, limit: nat, va: nat, level: nat): (r: Resolution)
    requires d.ap < 4 && level <= 3 && limit <= 0x10_0000_0000
    ensures LegalResolution(r)
  {
    if level == 0 then NoLeaf(TranslationFault, 0)
    else
      var pa := d.address - d.address % Span(level) + va % Span(level);
      if pa >= limit then NoLeaf(AddressSize, level)
      else if !d.af then NoLeaf(AccessFlag, level)
      else Leaf(level, pa, MergedAp(d.ap, attrs), d.xn || attrs.xn, d.pxn || attrs.pxn, d.ng)
  }

  function Descend(m: Ram, limit: nat, va: nat, level: nat, base: nat, attrs: TableAttrs): (r: Resolution)
    requires level <= 3 && limit <= 0x10_0000_0000
    ensures LegalResolution(r)
    decreases 3 - level
  {
    match Load(m, base + TableIndex(va, level), 8)
    case None => NoLeaf(NoWalk, -1)
    case Some(raw) =>
      var d := Decode(raw);
      if !d.valid then NoLeaf(TranslationFault, level)
      else if d.table && level < 3 then
        if d.address >= limit then NoLeaf(AddressSize, level)
        else Descend(m, limit, va, level + 1, d.address, Merge(attrs, AttrsOf(raw)))
      else LeafAt(d, attrs, limit, va, level)
  }

  function Resolve(c: Control, m: Ram, va: nat): (r: Resolution)
    ensures LegalResolution(r)
  {
    match Geometry(c, va)
    case Blocked(cls, at) => NoLeaf(cls, at)
    case Begin(level, base) => Descend(m, OutputLimit(c), va, level, base, TableAttrs(false, false, false, false))
  }

  datatype Answer = Served(pa: u64) | Refused(esr: u32, far: u64)

  function Verdict(r: Resolution, tva: u64, acc: Access): Answer
    requires LegalResolution(r)
  {
    match r
    case NoLeaf(cls, at) => Refused(Syndrome(acc, cls, at), tva)
    case Leaf(level, pa, ap, xn, pxn, _) =>
      if Permits(ap, xn, pxn, acc) then Served(pa) else Refused(Syndrome(acc, Permission, level), tva)
  }

  predicate Cacheable(c: Control, acc: Access) {
    Enabled(c) && acc.el < 3
  }

  /** The walk with the cache bypassed in both directions. */
  function Walk(c: Control, m: Ram, va: u64, acc: Access): Answer {
    if !Cacheable(c, acc) then Served(va)
    else Verdict(Resolve(c, m, StripTag(c, va)), StripTag(c, va), acc)
  }

  // ----- a walk depends on an address only through its page -----

  lemma DivPow2(va: nat, n: nat)
    requires n >= 12
    ensures va / Pow2(n) == (va / PAGE) / Pow2(n - 12)
    decreases n
  {
    if n == 12 {
      assert Pow2(12) == PAGE by {
        assert Pow2(6) == 64;
      }
    } else {
      DivPow2(va, n - 1);
      DivTwo(va, Pow2(n - 1));
      DivTwo(va / PAGE, Pow2(n - 13));
    }
  }

  lemma DivTwo(x: nat, p: nat)
    requires p > 0
    ensures x / (2 * p) == (x / p) / 2
  {
    var q, r := x / p, x % p;
    assert x == p * q + r;
    var half, odd := q / 2, q % 2;
    assert x == half * (2 * p) + (odd * p + r) by {
      assert p * q == p * (2 * half + odd) == half * (2 * p) + odd * p;
    }
    assert 0 <= odd * p + r < 2 * p;
    ModUnique(x, 2 * p, half, odd * p + r);
  }

  predicate SamePage(va: nat, vb: nat) {
    va / PAGE == vb / PAGE
  }

  /** `r` as it reads for another address of the same page. */
  function MovedTo(r: Resolution, vb: nat): Resolution {
    match r
    case NoLeaf(_, _) => r
    case Leaf(_, pa, _, _, _, _) => r.(pa := pa - pa % PAGE + vb % PAGE)
  }

  lemma PageSplit(va: nat, k: nat)
    requires k > 0
    ensures va / (PAGE * k) == (va / PAGE) / k
    ensures va % (PAGE * k) == PAGE * ((va / PAGE) % k) + va % PAGE
  {
    var q, r := (va / PAGE) / k, (va / PAGE) % k;
    assert va / PAGE == k * q + r;
    assert va == q * (PAGE * k) + (PAGE * r + va % PAGE) by {
      assert va == PAGE * (k * q + r) + va % PAGE;
      assert PAGE * (k * q) == q * (PAGE * k);
    }
    ModUnique(va, PAGE * k, q, PAGE * r + va % PAGE);
  }

  /** Pages a level's span holds. */
  function PagesOf(level: nat): (k: nat)
    requires level <= 3
    ensures k > 0 && Span(level) == PAGE * k
  {
    match level
    case 0 => 0x800_0000
    case 1 => 0x4_0000
    case 2 => 0x200
    case _ => 1
  }

  lemma SpanOfPage(va: nat, vb: nat, level: nat, address: nat)
    requires SamePage(va, vb) && level <= 3
    ensures TableIndex(va, level) == TableIndex(vb, level)
    ensures
      var pa := address - address % Span(level) + va % Span(level);
      var pb := address - address % Span(level) + vb % Span(level);
      pb == pa - pa % PAGE + vb % PAGE && pa % PAGE == va % PAGE && pa / PAGE == pb / PAGE
  {
    var k := PagesOf(level);
    PageSplit(va, k);
    PageSplit(vb, k);
    PageSplit(address, k);
    var whole := address / PAGE - (address / PAGE) % k;
    assert address - address % Span(level) == PAGE * whole;
    var n := whole + (va / PAGE) % k;
    assert PAGE * whole + va % Span(level) == PAGE * n + va % PAGE;
    assert PAGE * whole + vb % Span(level) == PAGE * n + vb % PAGE;
  }

  lemma LeafSamePage(d: Desc, attrs: TableAttrs, limit: nat, va: nat, vb: nat, level: nat)
    requires SamePage(va, vb) && d.ap < 4 && level <= 3
    requires limit <= 0x10_0000_0000 && limit % PAGE == 0
    ensures LeafAt(d, attrs, limit, vb, level) == MovedTo(LeafAt(d, attrs, limit, va, level), vb)
  {
    SpanOfPage(va, vb, level, d.address);
    var pa := d.address - d.address % Span(level) + va % Span(level);
    var pb := d.address - d.address % Span(level) + vb % Span(level);
    assert pa >= limit <==> pa / PAGE >= limit / PAGE;
    assert pb >= limit <==> pb / PAGE >= limit / PAGE;
  }

  lemma DescendSamePage(m: Ram, limit: nat, va: nat, vb: nat, level: nat, base: nat, attrs: TableAttrs)
    requires SamePage(va, vb) && level <= 3 && limit <= 0x10_0000_0000 && limit % PAGE == 0
    ensures Descend(m, limit, vb, level, base, attrs) == MovedTo(Descend(m, limit, va, level, base, attrs), vb)
    decreases 3 - level
  {
    hide Load, Decode, AttrsOf, LeafAt, TableIndex;
    SpanOfPage(va, vb, level, 0);
    match Load(m, base + TableIndex(va, level), 8)
    case None =>
    case Some(raw) =>
      var d := Decode(raw);
      if !d.valid {
      } else if d.table && level < 3 {
        if d.address < limit {
          DescendSamePage(m, limit, va, vb, level + 1, d.address, Merge(attrs, AttrsOf(raw)));
        }
      } else {
        LeafSamePage(d, attrs, limit, va, vb, level);
        assert Descend(m, limit, va, level, base, attrs) == LeafAt(d, attrs, limit, va, level);
        assert Descend(m, limit, vb, level, base, attrs) == LeafAt(d, attrs, limit, vb, level);
      }
  }

  lemma GeometrySamePage(c: Control, va: nat, vb: nat)
    requires SamePage(va, vb)
    ensures Geometry(c, va) == Geometry(c, vb)
  {
    assert UseTtbr1(va) == UseTtbr1(vb) by {
      assert va / 0x80_0000_0000_0000 == (va / PAGE) / 0x800_0000_0000;
      assert vb / 0x80_0000_0000_0000 == (vb / PAGE) / 0x800_0000_0000;
    }
    var size := InputSize(c, va);
    if StartLevel(size).Some? {
      DivPow2(va, size);
      DivPow2(vb, size);
    }
  }

  lemma ResolveSamePage(c: Control, m: Ram, va: nat, vb: nat)
    requires SamePage(va, vb)
    ensures Resolve(c, m, vb) == MovedTo(Resolve(c, m, va), vb)
  {
    hide Geometry, Descend;
    GeometrySamePage(c, va, vb);
    var g := Geometry(c, va);
    if g.Begin? {
      DescendSamePage(m, OutputLimit(c), va, vb, g.level, g.base, TableAttrs(false, false, false, false));
    }
  }
}
