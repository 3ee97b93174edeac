/** The direct-mapped translation cache as a state machine, and what it may remember. */
module TranslationCache {
  import opened Words
  import opened FlatMemory
  import opened Translation

  /** One slot; `level` 0 marks it free. `flags` packs nG, AP, XN and PXN. */
  datatype Entry = Entry(va: nat, pa: nat, asid: nat, level: nat, flags: nat)

  const FREE := Entry(0, 0, 0, 0, 0)

  datatype Tlb = Tlb(entries: seq<Entry>, epoch: Option<Control>, hits: nat, misses: nat, flushes: nat)

  predicate EntryOk(e: Entry) {
    e.level <= 3 && e.pa < 0x10_0000_0000 && e.pa % PAGE == 0
  }

  predicate Shaped(t: Tlb) {
    |t.entries| == SETS && forall i :: 0 <= i < SETS ==> EntryOk(t.entries[i])
  }

  function NoEntries(): (es: seq<Entry>)
    ensures |es| == SETS && forall i :: 0 <= i < SETS ==> es[i] == FREE
  {
    seq(SETS, i => FREE)
  }

  function Index(va: nat): (i: nat)
    ensures i < SETS
  {
    (va / PAGE) % SETS
  }

  /** Two addresses share a slot exactly when their pages are a multiple of 4096 pages, 16 MiB, apart. */
  lemma SharedSlot(a: nat, b: nat)
    ensures Index(a) == Index(b) <==> (a / 0x1000 - b / 0x1000) % 4096 == 0
  {
  }

  function PageBase(va: nat): nat {
    va - va % PAGE
  }

  function PackFlags(ap: nat, xn: bool, pxn: bool, ng: bool): nat {
    (if ng then 1 else 0) + 2 * ap + (if xn then 8 else 0) + (if pxn then 0x10 else 0)
  }

  /** The leaf a slot stands for, read back from its packed flags. */
  function LeafOf(e: Entry): Resolution {
    Leaf(e.level, e.pa, (e.flags / 2) % 4, Bit(e.flags, 8), Bit(e.flags, 0x10), Bit(e.flags, 1))
  }

  function EntryFor(c: Control, tva: nat, leaf: Resolution): (e: Entry)
    requires leaf.Leaf?
  {
    Entry(PageBase(tva), PageBase(leaf.pa), (if UseTtbr1(tva) then c.ttbr1 else c.ttbr0) / 0x1_0000_0000_0000,
          leaf.level, PackFlags(leaf.ap, leaf.xn, leaf.pxn, leaf.ng))
  }

  /** Packing loses nothing: the slot stands for the leaf as seen from its own page base. */
  lemma PackedLeaf(c: Control, tva: nat, leaf: Resolution)
    requires leaf.Leaf? && LegalResolution(leaf)
    ensures EntryOk(EntryFor(c, tva, leaf)) && EntryFor(c, tva, leaf).level != 0
    ensures LeafOf(EntryFor(c, tva, leaf)) == MovedTo(leaf, PageBase(tva))
  {
    assert PageBase(tva) % PAGE == 0 && PageBase(leaf.pa) % PAGE == 0;
  }

  function Flush(t: Tlb): Tlb {
    t.(entries := NoEntries(), flushes := t.flushes + 1)
  }

  /** The epoch check: any changed control register empties the cache first. */
  function Prime(t: Tlb, c: Control): Tlb {
    (if t.epoch.Some? && t.epoch.value != c then Flush(t) else t).(epoch := Some(c))
  }

  predicate Live(entries: seq<Entry>, tva: nat)
    requires |entries| == SETS
  {
    var e := entries[Index(tva)];
    e.level != 0 && e.va == PageBase(tva)
  }

  /** A served hit: the permission table re-run on the slot's inputs. */
  function Serve(e: Entry, tva: u64, acc: Access): Answer
    requires EntryOk(e) && e.level != 0
  {
    if Permits((e.flags / 2) % 4, Bit(e.flags, 8), Bit(e.flags, 0x10), acc) then Served(e.pa + tva % PAGE)
    else Refused(Syndrome(acc, Permission, e.level), tva)
  }

  datatype Outcome = Outcome(tlb: Tlb, answer: Answer)

  /** One translation through the cache: epoch first, slot second, walk last. */
  function Translate(t: Tlb, c: Control, m: Ram, va: u64, acc: Access): (o: Outcome)
    requires Shaped(t)
    ensures Shaped(o.tlb)
  {
    var p := Prime(t, c);
    var tva := StripTag(c, va);
    if !Cacheable(c, acc) then Outcome(p, Served(va))
    else if Live(p.entries, tva) then
      Outcome(p.(hits := p.hits + 1), Serve(p.entries[Index(tva)], tva, acc))
    else
      var r := Resolve(c, m, tva);
      var answer := Verdict(r, tva, acc);
      var q := p.(misses := p.misses + 1);
      if answer.Served? then
        PackedLeaf(c, tva, r);
        Outcome(q.(entries := q.entries[Index(tva) := EntryFor(c, tva, r)]), answer)
      else Outcome(q, answer)
  }

  /** Every translation that the cache may answer is counted once, as a hit or as a miss; one it may not, not at all;
      and every emptying of the cache is counted, by a request or by a changed register. */
  lemma CountsOnce(t: Tlb, c: Control, m: Ram, va: u64, acc: Access)
    requires Shaped(t)
    ensures
      var o := Translate(t, c, m, va, acc).tlb;
      && (o.hits, o.misses) ==
           (if !Cacheable(c, acc) then (t.hits, t.misses)
            else if Live(Prime(t, c).entries, StripTag(c, va)) then (t.hits + 1, t.misses)
            else (t.hits, t.misses + 1))
      && o.flushes == t.flushes + if t.epoch.Some? && t.epoch.value != c then 1 else 0
    ensures Flush(t).flushes == t.flushes + 1
  {
    hide Resolve, Verdict, EntryFor, NoEntries;
  }

  /** A filled slot is marked with the top sixteen bits of the table register of its half, which nothing reads. */
  lemma StoredAsid(c: Control, tva: u64, leaf: Resolution)
    requires leaf.Leaf?
    ensures EntryFor(c, tva, leaf).asid ==
            (if tva / 0x80_0000_0000_0000 % 2 == 1 then c.ttbr1 else c.ttbr0) / 0x1_0000_0000_0000
  {
  }

  // ----- what a slot may hold -----

  /** Slot `i` holds what a walk of `m` under `c` yields for the page it names. */
  predicate Caches(c: Control, m: Ram, i: nat, e: Entry) {
    && e.va % PAGE == 0 && Index(e.va) == i
    && Resolve(c, m, e.va) == LeafOf(e)
  }

  ghost predicate FromHistory(c: Control, since: seq<Ram>, i: nat, e: Entry) {
    exists k :: 0 <= k < |since| && Caches(c, since[k], i, e)
  }

  /** Every occupied slot was filled from some memory seen since the last flush, under the epoch's registers. */
  ghost predicate Justified(t: Tlb, since: seq<Ram>) {
    && Shaped(t)
    && forall i :: 0 <= i < SETS && t.entries[i].level != 0 ==>
         t.epoch.Some? && FromHistory(t.epoch.value, since, i, t.entries[i])
  }

  lemma PrimeJustified(t: Tlb, c: Control, since: seq<Ram>, m: Ram)
    requires Justified(t, since) && m in since
    ensures
      var p := Prime(t, c);
      && Justified(p, if p.flushes == t.flushes then since else [m])
      && p.epoch == Some(c)
  {
  }

  /** A hit answers as the walk would have on the memory the slot was filled from. */
  lemma HitMeansWalk(t: Tlb, c: Control, since: seq<Ram>, va: u64, acc: Access) returns (k: nat)
    requires Justified(t, since) && t.epoch == Some(c) && Cacheable(c, acc)
    requires Live(t.entries, StripTag(c, va))
    ensures k < |since|
    ensures Serve(t.entries[Index(StripTag(c, va))], StripTag(c, va), acc) == Walk(c, since[k], va, acc)
  {
    hide Resolve;
    var tva := StripTag(c, va);
    var i := Index(tva);
    var e := t.entries[i];
    assert FromHistory(c, since, i, e);
    k :| 0 <= k < |since| && Caches(c, since[k], i, e);
    assert SamePage(e.va, tva);
    ResolveSamePage(c, since[k], e.va, tva);
  }

  lemma FillJustified(t: Tlb, c: Control, since: seq<Ram>, m: Ram, tva: u64)
    requires Justified(t, since) && t.epoch == Some(c) && m in since && Resolve(c, m, tva).Leaf?
    ensures Justified(t.(entries := t.entries[Index(tva) := EntryFor(c, tva, Resolve(c, m, tva))]), since)
  {
    hide Resolve;
    var r := Resolve(c, m, tva);
    var e := EntryFor(c, tva, r);
    PackedLeaf(c, tva, r);
    assert SamePage(tva, e.va) && Index(e.va) == Index(tva);
    ResolveSamePage(c, m, tva, e.va);
    var k :| 0 <= k < |since| && since[k] == m;
    assert Caches(c, since[k], Index(tva), e);
    assert FromHistory(c, since, Index(tva), e);
  }

  /** The memories seen since the last flush, after a translation that may itself have flushed. */
  function SinceAfter(t: Tlb, t': Tlb, since: seq<Ram>, m: Ram): seq<Ram> {
    if t'.flushes == t.flushes then since else [m]
  }

  /** One translation keeps the cache justified, and its answer is a bypassed walk of a memory since the last flush. */
  lemma TranslateJustified(t: Tlb, c: Control, since: seq<Ram>, m: Ram, va: u64, acc: Access) returns (k: nat)
    requires Justified(t, since) && m in since
    ensures
      var o := Translate(t, c, m, va, acc);
      var since' := SinceAfter(t, o.tlb, since, m);
      && Justified(o.tlb, since')
      && k < |since'| && o.answer == Walk(c, since'[k], va, acc)
  {
    var p := Prime(t, c);
    var after := if p.flushes == t.flushes then since else [m];
    PrimeJustified(t, c, since, m);
    var tva := StripTag(c, va);
    k :| 0 <= k < |after| && after[k] == m;
    if Cacheable(c, acc) {
      if Live(p.entries, tva) {
        k := HitMeansWalk(p, c, after, va, acc);
      } else {
        var q := p.(misses := p.misses + 1);
        assert Justified(q, after);
        var r := Resolve(c, m, tva);
        if Verdict(r, tva, acc).Served? {
          FillJustified(q, c, after, m, tva);
        }
      }
    }
  }

  // ----- whole runs -----

  datatype Event =
    | Lookup(va: u64, acc: Access)
    | SetControl(c: Control)
    | Invalidate
    | PhysicalWrite(m: Ram)

  /** The layer, the registers and memory it reads, and a history variable: memories since the last flush. */
  datatype Machine = Machine(tlb: Tlb, control: Control, ram: Ram, since: seq<Ram>)

  function Boot(c: Control, m: Ram): Machine {
    Machine(Tlb(NoEntries(), None, 0, 0, 0), c, m, [m])
  }

  function Step(s: Machine, e: Event): (r: Machine)
    requires Shaped(s.tlb)
    ensures Shaped(r.tlb)
  {
    match e
    case Lookup(va, acc) =>
      var t := Translate(s.tlb, s.control, s.ram, va, acc).tlb;
      s.(tlb := t, since := SinceAfter(s.tlb, t, s.since, s.ram))
    case SetControl(c) => s.(control := c)
    case Invalidate => s.(tlb := Flush(s.tlb), since := [s.ram])
    case PhysicalWrite(m) => s.(ram := m, since := s.since + [m])
  }

  function Run(s: Machine, es: seq<Event>): (r: Machine)
    requires Shaped(s.tlb)
    ensures Shaped(r.tlb)
    decreases |es|
  {
    if es == [] then s else Run(Step(s, es[0]), es[1..])
  }

  ghost predicate Sound(s: Machine) {
    Justified(s.tlb, s.since) && s.ram in s.since
  }

  lemma JustifiedMore(t: Tlb, since: seq<Ram>, m: Ram)
    requires Justified(t, since)
    ensures Justified(t, since + [m])
  {
    forall i | 0 <= i < SETS && t.entries[i].level != 0
      ensures t.epoch.Some? && FromHistory(t.epoch.value, since + [m], i, t.entries[i])
    {
      assert FromHistory(t.epoch.value, since, i, t.entries[i]);
      var k :| 0 <= k < |since| && Caches(t.epoch.value, since[k], i, t.entries[i]);
      assert (since + [m])[k] == since[k];
    }
  }

  lemma StepSound(s: Machine, e: Event)
    requires Sound(s)
    ensures Sound(Step(s, e))
  {
    match e
    case Lookup(va, acc) =>
      var _ := TranslateJustified(s.tlb, s.control, s.since, s.ram, va, acc);
    case SetControl(c) =>
    case Invalidate =>
    case PhysicalWrite(m) =>
      JustifiedMore(s.tlb, s.since, m);
      assert (s.since + [m])[|s.since|] == m;
  }

  lemma {:induction false} RunSound(s: Machine, es: seq<Event>)
    requires Sound(s)
    ensures Sound(Run(s, es))
    decreases |es|
  {
    if es != [] {
      StepSound(s, es[0]);
      RunSound(Step(s, es[0]), es[1..]);
    }
  }

  /** The descriptors on the current path read the same in `m` and `past`. */
  predicate PathAgrees(m: Ram, past: Ram, limit: nat, va: nat, level: nat, base: nat)
    requires level <= 3
    decreases 3 - level
  {
    var at := base + TableIndex(va, level);
    && Load(m, at, 8) == Load(past, at, 8)
    && (Load(m, at, 8).Some? ==>
          var d := Decode(Load(m, at, 8).value);
          d.valid && d.table && level < 3 && d.address < limit ==> PathAgrees(m, past, limit, va, level + 1, d.address))
  }

  predicate SamePath(c: Control, m: Ram, past: Ram, va: nat) {
    var g := Geometry(c, va);
    g.Begin? ==> PathAgrees(m, past, OutputLimit(c), va, g.level, g.base)
  }

  lemma {:induction false} PathAgreesDescend(m: Ram, past: Ram, limit: nat, va: nat, level: nat, base: nat,
          attrs: TableAttrs)
    requires level <= 3 && limit <= 0x10_0000_0000 && PathAgrees(m, past, limit, va, level, base)
    ensures Descend(m, limit, va, level, base, attrs) == Descend(past, limit, va, level, base, attrs)
    decreases 3 - level
  {
    var load := Load(m, base + TableIndex(va, level), 8);
    if load.Some? {
      var d := Decode(load.value);
      if d.valid && d.table && level < 3 && d.address < limit {
        PathAgreesDescend(m, past, limit, va, level + 1, d.address, Merge(attrs, AttrsOf(load.value)));
      }
    }
  }

  lemma SamePathSameWalk(c: Control, m: Ram, past: Ram, va: u64, acc: Access)
    requires SamePath(c, m, past, StripTag(c, va))
    ensures Walk(c, past, va, acc) == Walk(c, m, va, acc)
  {
    var g := Geometry(c, StripTag(c, va));
    if g.Begin? {
      PathAgreesDescend(m, past, OutputLimit(c), StripTag(c, va), g.level, g.base,
                        TableAttrs(false, false, false, false));
    }
  }

  ghost predicate AnswersLikeOneOf(c: Control, since: seq<Ram>, va: u64, acc: Access, answer: Answer) {
    exists k :: 0 <= k < |since| && answer == Walk(c, since[k], va, acc)
  }

  /** After any run, every answer equals the bypassed walk on some memory since the last flush. */
  lemma AnswersComeFromHistory(c: Control, m: Ram, es: seq<Event>, va: u64, acc: Access)
    ensures
      var s := Run(Boot(c, m), es);
      AnswersLikeOneOf(s.control, Step(s, Lookup(va, acc)).since, va, acc,
                       Translate(s.tlb, s.control, s.ram, va, acc).answer)
  {
    assert Justified(Boot(c, m).tlb, [m]) && m in [m];
    RunSound(Boot(c, m), es);
    var s := Run(Boot(c, m), es);
    var k := TranslateJustified(s.tlb, s.control, s.since, s.ram, va, acc);
  }

  /** It equals the bypassed walk on the current memory whenever no descriptor on the path changed since the flush. */
  lemma AnswersAreCurrent(c: Control, m: Ram, es: seq<Event>, va: u64, acc: Access)
    requires
      var s := Run(Boot(c, m), es);
      var since := Step(s, Lookup(va, acc)).since;
      forall k :: 0 <= k < |since| ==> SamePath(s.control, s.ram, since[k], StripTag(s.control, va))
    ensures
      var s := Run(Boot(c, m), es);
      Translate(s.tlb, s.control, s.ram, va, acc).answer == Walk(s.control, s.ram, va, acc)
  {
    AnswersComeFromHistory(c, m, es, va, acc);
    var s := Run(Boot(c, m), es);
    var since := Step(s, Lookup(va, acc)).since;
    var answer := Translate(s.tlb, s.control, s.ram, va, acc).answer;
    var k :| 0 <= k < |since| && answer == Walk(s.control, since[k], va, acc);
    SamePathSameWalk(s.control, s.ram, since[k], va, acc);
  }

  // ----- exactly when a slot answers as the walk does -----

  /** Below EL2 a leaf refuses some access. */
  predicate DeniesSome(r: Resolution)
    requires r.Leaf?
  {
    r.ap % 2 == 0 || Bit(r.ap, 2) || r.xn || r.pxn
  }

  /** The two resolutions cannot be told apart by the answers to any access: the same page, the same permissions (XN
      matters to EL0 alone), and the same level if any access is refused and so reports it. */
  predicate SameView(l: Resolution, r: Resolution)
    requires l.Leaf?
  {
    && r.Leaf? && l.pa == r.pa && l.ap == r.ap && l.pxn == r.pxn
    && (l.ap % 2 == 1 ==> l.xn == r.xn)
    && (DeniesSome(l) ==> l.level == r.level)
  }

  /** Every access is answered alike exactly when the views are the same. */
  lemma SameAnswersExactly(l: Resolution, r: Resolution, tva: u64)
    requires l.Leaf? && LegalResolution(l) && LegalResolution(r)
    ensures SameView(l, r) <==> forall acc: Access :: acc.el < 3 ==> Verdict(l, tva, acc) == Verdict(r, tva, acc)
  {
    if forall acc: Access :: acc.el < 3 ==> Verdict(l, tva, acc) == Verdict(r, tva, acc) {
      AnswersTell(l, r, tva);
    }
  }

  /** Six accesses tell two views apart. */
  lemma AnswersTell(l: Resolution, r: Resolution, tva: u64)
    requires l.Leaf? && LegalResolution(l) && LegalResolution(r)
    requires forall acc: Access :: acc.el < 3 ==> Verdict(l, tva, acc) == Verdict(r, tva, acc)
    ensures SameView(l, r)
  {
    var accesses := [Access(0, false, false), Access(0, true, false), Access(0, false, true),
                     Access(1, false, false), Access(1, true, false), Access(1, false, true)];
    forall k | 0 <= k < 6 ensures Verdict(l, tva, accesses[k]) == Verdict(r, tva, accesses[k]) {
    }
  }

  /** What the slot of `tva` says of it. */
  function SlotView(entries: seq<Entry>, tva: nat): Resolution
    requires |entries| == SETS && Live(entries, tva)
  {
    MovedTo(LeafOf(entries[Index(tva)]), tva)
  }

  /** The cache has nothing to say about `va`, or what it says looks like today's walk. */
  predicate Current(t: Tlb, c: Control, m: Ram, va: u64)
    requires Shaped(t)
  {
    var p, tva := Prime(t, c), StripTag(c, va);
    Enabled(c) && Live(p.entries, tva) ==> SameView(SlotView(p.entries, tva), Resolve(c, m, tva))
  }

  /** The layer answers every access to `va` as today's walk does. */
  ghost predicate AnswersAsWalk(t: Tlb, c: Control, m: Ram, va: u64)
    requires Shaped(t)
  {
    forall acc: Access :: Translate(t, c, m, va, acc).answer == Walk(c, m, va, acc)
  }

  lemma SlotServes(entries: seq<Entry>, tva: u64, acc: Access)
    requires |entries| == SETS && Live(entries, tva) && EntryOk(entries[Index(tva)])
    ensures SlotView(entries, tva).Leaf? && LegalResolution(SlotView(entries, tva))
    ensures Serve(entries[Index(tva)], tva, acc) == Verdict(SlotView(entries, tva), tva, acc)
  {
  }

  /** In every state of the cache, registers and memory: all answers are today's exactly when the slot is current. */
  lemma AnswersAreCurrentExactly(t: Tlb, c: Control, m: Ram, va: u64)
    requires Shaped(t)
    ensures AnswersAsWalk(t, c, m, va) <==> Current(t, c, m, va)
  {
    hide Resolve, SameView, Verdict, Serve, SlotView, EntryFor;
    var p, tva := Prime(t, c), StripTag(c, va);
    if Enabled(c) && Live(p.entries, tva) {
      var l, r := SlotView(p.entries, tva), Resolve(c, m, tva);
      SlotServes(p.entries, tva, Access(0, false, false));
      forall acc: Access ensures Serve(p.entries[Index(tva)], tva, acc) == Verdict(l, tva, acc) {
        SlotServes(p.entries, tva, acc);
      }
      SameAnswersExactly(l, r, tva);
      forall acc: Access | acc.el < 3
        ensures Translate(t, c, m, va, acc).answer == Verdict(l, tva, acc)
        ensures Walk(c, m, va, acc) == Verdict(r, tva, acc)
      {
      }
    }
  }

  /** After any run, a live slot was filled by the walk of some memory since the last flush, and all answers are
      today's exactly when that walk and today's look the same. */
  lemma RunIsCurrentExactly(c: Control, m: Ram, es: seq<Event>, va: u64) returns (k: nat)
    requires
      var s := Run(Boot(c, m), es);
      Enabled(s.control) && Live(Prime(s.tlb, s.control).entries, StripTag(s.control, va))
    ensures
      var s := Run(Boot(c, m), es);
      var tva := StripTag(s.control, va);
      && k < |s.since| && Resolve(s.control, s.since[k], tva).Leaf?
      && (AnswersAsWalk(s.tlb, s.control, s.ram, va) <==>
            SameView(Resolve(s.control, s.since[k], tva), Resolve(s.control, s.ram, tva)))
  {
    hide Resolve, SameView, AnswersAsWalk, Run;
    assert Justified(Boot(c, m).tlb, [m]) && m in [m];
    RunSound(Boot(c, m), es);
    var s := Run(Boot(c, m), es);
    var tva := StripTag(s.control, va);
    AnswersAreCurrentExactly(s.tlb, s.control, s.ram, va);
    k := LiveSlotWalked(s.tlb, s.control, s.since, s.ram, tva);
  }

  /** A slot that survives the epoch check holds the walk of a memory since the last flush. */
  lemma LiveSlotWalked(t: Tlb, c: Control, since: seq<Ram>, m: Ram, tva: nat) returns (k: nat)
    requires Justified(t, since) && m in since && Live(Prime(t, c).entries, tva)
    ensures k < |since| && SlotView(Prime(t, c).entries, tva) == Resolve(c, since[k], tva)
  {
    hide Resolve;
    var e := t.entries[Index(tva)];
    assert Prime(t, c).entries == t.entries;
    assert FromHistory(c, since, Index(tva), e);
    k :| 0 <= k < |since| && Caches(c, since[k], Index(tva), e);
    assert SamePage(e.va, tva);
    ResolveSamePage(c, since[k], e.va, tva);
  }

  // ----- the hypothesis of AnswersAreCurrent cannot be dropped -----

  /** One level-1 table at address 0 whose first descriptor is `low` + 256 * `next`. */
  function OneEntryTable(low: u8, next: u8): Ram {
    Ram([Region(0, PAGE, READ)],
        map[0 := low, 1 := next, 2 := 0, 3 := 0, 4 := 0, 5 := 0, 6 := 0, 7 := 0])
  }

  /** Translation on, a 39-bit low region, both tables at address 0. */
  const LOW39 := Control(1, 25, 0, 0, 0)

  lemma {:induction false} ZeroBytes(bs: seq<u8>)
    requires forall k :: 0 <= k < |bs| ==> bs[k] == 0
    ensures LittleEndian(bs) == 0
  {
    if bs != [] {
      ZeroBytes(bs[1..]);
    }
  }

  lemma OneEntryLoad(low: u8, next: u8)
    ensures Load(OneEntryTable(low, next), 0, 8) == Some(low as int + 256 * next as int)
  {
    var m := OneEntryTable(low, next);
    assert Covers(m.regions[0], 0, 8, READ);
    var bytes := Bytes(m.data, 0, 8);
    var tail := bytes[1..];
    ZeroBytes(tail[1..]);
    assert LittleEndian(tail) == tail[0] as int;
  }

  lemma Low39Fields()
    ensures !UseTtbr1(0) && !TagIgnored(LOW39, 0) && InputSize(LOW39, 0) == 39
    ensures StartLevel(39) == Some(1) && !Bit(25, 0x80) && OutputLimit(LOW39) == 0x1_0000_0000
  {
  }

  lemma Low39Region()
    ensures RegionOk(0, 39, 64, false)
  {
    hide Pow2;
    assert 0 / Pow2(39) == 0 && 0 % Pow2(25) == 0;
  }

  lemma Low39Geometry()
    ensures Geometry(LOW39, 0) == Begin(1, 0) && OutputLimit(LOW39) == 0x1_0000_0000
  {
    hide UseTtbr1, TagIgnored, InputSize, StartLevel, RegionOk, OutputLimit, Bit;
    Low39Fields();
    Low39Region();
  }

  lemma OneEntryWalk(low: u8, next: u8)
    requires (low == 1 && next == 4) || (low == 0 && next == 0)
    ensures Resolve(LOW39, OneEntryTable(low, next), 0) ==
            if low == 1 then Leaf(1, 0, 0, false, false, false) else NoLeaf(TranslationFault, 1)
  {
    hide Geometry, OutputLimit, Load;
    OneEntryLoad(low, next);
    Low39Geometry();
    assert TableIndex(0, 1) == 0;
    var raw := low as int + 256 * next as int;
    assert raw == 0x401 || raw == 0;
    var attrs := TableAttrs(false, false, false, false);
    if low == 1 {
      assert Decode(raw) == Desc(true, false, true, 0, false, true, 0, false, false);
      assert Descend(OneEntryTable(low, next), 0x1_0000_0000, 0, 1, 0, attrs)
          == LeafAt(Decode(raw), attrs, 0x1_0000_0000, 0, 1);
    } else {
      assert !Decode(raw).valid;
    }
  }

  /** A guest that clears a descriptor and skips the invalidation keeps being served the old page. */
  lemma StaleWithoutInvalidation()
    ensures
      var acc := Access(1, false, false);
      var es := [Lookup(0, acc), PhysicalWrite(OneEntryTable(0, 0))];
      var s := Run(Boot(LOW39, OneEntryTable(1, 4)), es);
      && Translate(s.tlb, s.control, s.ram, 0, acc).answer == Served(0)
      && Walk(s.control, s.ram, 0, acc).Refused?
  {
    hide Resolve, OneEntryTable;
    var acc := Access(1, false, false);
    var m, m' := OneEntryTable(1, 4), OneEntryTable(0, 0);
    var s0 := Boot(LOW39, m);
    OneEntryWalk(1, 4);
    OneEntryWalk(0, 0);
    assert StripTag(LOW39, 0) == 0 && Index(0) == 0 && Cacheable(LOW39, acc);
    var leaf := Leaf(1, 0, 0, false, false, false);
    var s1 := Step(s0, Lookup(0, acc));
    assert s1.tlb.entries[0] == EntryFor(LOW39, 0, leaf) && s1.tlb.epoch == Some(LOW39);
    var s2 := Step(s1, PhysicalWrite(m'));
    assert Translate(s2.tlb, LOW39, m', 0, acc).answer == Serve(s2.tlb.entries[0], 0, acc) == Served(0);
    var es := [Lookup(0, acc), PhysicalWrite(m')];
    assert es[1..] == [PhysicalWrite(m')] && es[1..][1..] == [];
    assert Run(s0, es) == Run(s1, es[1..]) == Run(s2, []) == s2;
  }
}
