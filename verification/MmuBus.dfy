/** The translation layer as an object over a physical bus: the walk loop, the cache, and the checked bus accesses. */
module MmuBus {
  import opened Words
  import opened FlatMemory
  import opened Translation
  import opened TranslationCache
  import opened Pinning
  import opened BusSpec
  import opened GuestMemory

  class Mmu {
    const bus: AddressSpace
    const tlb: array<Entry>
    var control: Control
    var el: El
    var epoch: Option<Control>
    var hits: nat
    var misses: nat
    var flushes: nat
    var fault: Option<FaultRecord>

    ghost function State(): Tlb
      reads this, tlb
    {
      Tlb(tlb[..], epoch, hits, misses, flushes)
    }

    ghost predicate Valid()
      reads this, tlb, bus, bus.hosts
    {
      bus.Valid() && Shaped(State())
    }

    constructor (bus: AddressSpace, control: Control, el: El)
      requires bus.Valid()
      ensures Valid() && this.bus == bus && this.control == control && this.el == el && fault == None
      ensures State() == Boot(control, bus.view).tlb && fresh(tlb)
      ensures tlb.Length == 4096 && epoch == None && hits == 0 && misses == 0 && flushes == 0
      ensures forall i :: 0 <= i < 4096 ==> tlb[i].level == 0
    {
      this.bus := bus;
      this.control, this.el := control, el;
      tlb := new Entry[SETS](i => FREE);
      epoch, hits, misses, flushes, fault := None, 0, 0, 0, None;
      new;
      assert tlb[..] == NoEntries();
    }

    method FlushAll()
      requires Valid()
      modifies this`flushes, tlb
      ensures Valid() && State() == Flush(old(State()))
    {
      forall i | 0 <= i < SETS {
        tlb[i] := FREE;
      }
      flushes := flushes + 1;
      assert tlb[..] == NoEntries();
    }

    /** The table walk; on success through the tables it also returns the leaf worth caching. */
    method WalkTables(va: u64, acc: Access) returns (answer: Answer, leaf: Option<Resolution>)
      requires Valid()
      ensures answer == Walk(control, bus.view, va, acc)
      ensures leaf == if Cacheable(control, acc) && answer.Served? then
              Some(Resolve(control, bus.view, StripTag(control, va))) else None
    {
      hide Resolve, Geometry, LeafAt, Decode, AttrsOf, StripTag, Load;
      if acc.el >= 3 || !Enabled(control) {
        return Served(va), None;
      }
      var tva := StripTag(control, va);
      ghost var resolved := Resolve(control, bus.view, tva);
      var g := Geometry(control, tva);
      if g.Blocked? {
        ResolveBlocked(control, bus.view, tva);
        return Refused(Syndrome(acc, g.cls, g.at), tva), None;
      }
      ResolveBegins(control, bus.view, tva);
      var limit := OutputLimit(control);
      var level: nat, base: nat, attrs := g.level, g.base, TableAttrs(false, false, false, false);
      while true
        invariant level <= 3 && base < TWO64 - PAGE
        invariant Descend(bus.view, limit, tva, level, base, attrs) == resolved
        decreases 3 - level
      {
        IndexInPage(tva, level);
        var s, raw := bus.Read(base + TableIndex(tva, level), 8, false);
        if s != OK {
          return Refused(Syndrome(acc, NoWalk, -1), tva), None;
        }
        var d := Decode(raw);
        if !d.valid {
          return Refused(Syndrome(acc, TranslationFault, level), tva), None;
        }
        if d.table && level < 3 {
          if d.address >= limit {
            return Refused(Syndrome(acc, AddressSize, level), tva), None;
          }
          base, attrs, level := d.address, Merge(attrs, AttrsOf(raw)), level + 1;
        } else {
          var r := LeafAt(d, attrs, limit, tva, level);
          answer := Verdict(r, tva, acc);
          return answer, if answer.Served? then Some(r) else None;
        }
      }
    }

    /** Epoch check: compare the live registers, flush on any change, remember them. */
    method CheckEpoch()
      requires Valid()
      modifies this`epoch, this`flushes, tlb
      ensures Valid() && State() == Prime(old(State()), control)
    {
      if epoch.Some? && epoch.value != control {
        FlushAll();
      }
      epoch := Some(control);
    }

    /** Cache service: an answer from the slot, granted or denied, or a miss. */
    method Probe(tva: u64, acc: Access) returns (served: Option<Answer>)
      requires Valid()
      modifies this`hits, this`misses
      ensures Valid()
      ensures
        var t := old(State());
        if Live(t.entries, tva) then
          State() == t.(hits := t.hits + 1) && served == Some(Serve(t.entries[Index(tva)], tva, acc))
        else
          State() == t.(misses := t.misses + 1) && served == None
    {
      hide Serve;
      var e := tlb[Index(tva)];
      if e.level == 0 || e.va != PageBase(tva) {
        misses := misses + 1;
        return None;
      }
      hits := hits + 1;
      return Some(Serve(e, tva, acc));
    }

    method Fill(tva: u64, leaf: Resolution)
      requires Valid() && leaf.Leaf? && LegalResolution(leaf)
      modifies tlb
      ensures Valid()
      ensures State() == old(State()).(entries := old(tlb[..])[Index(tva) := EntryFor(control, tva, leaf)])
    {
      PackedLeaf(control, tva, leaf);
      tlb[Index(tva)] := EntryFor(control, tva, leaf);
    }

    /** One translation: epoch first, cache second, walk last; only a table-driven success is remembered. */
    method TranslateAt(va: u64, acc: Access) returns (answer: Answer)
      requires Valid()
      modifies this`epoch, this`hits, this`misses, this`flushes, tlb
      ensures Valid()
      ensures State() == Translate(old(State()), control, bus.view, va, acc).tlb
      ensures answer == Ask(old(State()), control, bus.view, va, acc)
    {
      hide Walk, Resolve, StripTag, EntryFor, Serve, Verdict, Index, Prime, Enabled, Shaped, Live;
      CheckEpoch();
      var tva := StripTag(control, va);
      if Cacheable(control, acc) {
        var served := Probe(tva, acc);
        if served.Some? {
          return served.value;
        }
      }
      WalkCases(control, bus.view, va, acc);
      var leaf;
      answer, leaf := WalkTables(va, acc);
      if leaf.Some? {
        Fill(tva, leaf.value);
      }
    }

    method Refuse(acc: Access, cls: FaultClass, va: u64) returns (s: Status)
      requires LevelInRange(cls, -1)
      modifies this`fault
      ensures s == FAULT && fault == Some(FaultRecord(Syndrome(acc, cls, -1), Some(va)))
    {
      fault := Some(FaultRecord(Syndrome(acc, cls, -1), Some(va)));
      return FAULT;
    }

    /** Checks every byte of a split access before any is moved, and leaves all of them pinned. */
    method SplitCheck(va: u64, n: nat, acc: Access, need: Perms) returns (refusal: Option<FaultRecord>,
            ghost pas: seq<u64>)
      requires Valid() && TransferSize(n)
      modifies this`epoch, this`hits, this`misses, this`flushes, tlb
      ensures Valid()
      ensures refusal == SplitRefusal(old(State()), control, bus.view, va, n, 0, acc, need)
      ensures refusal.None? ==>
                && |pas| == n && Located(old(State()), control, bus.view, va, acc, need, pas)
                && AllPinned(State(), control, va, acc, pas)
      ensures AllSettled(old(State()), control, va, acc, n) ==> SameSlots(old(State()), State())
    {
      hide Ask, Covered, Pinned, Settled, Compatible, Shaped, At;
      ghost var t0 := State();
      pas := [];
      var i := 0;
      while i < n
        invariant 0 <= i <= n && |pas| == i && Valid()
        invariant SplitRefusal(t0, control, bus.view, va, n, 0, acc, need) ==
                  SplitRefusal(t0, control, bus.view, va, n, i, acc, need)
        invariant Located(t0, control, bus.view, va, acc, need, pas)
        invariant AllPinned(State(), control, va, acc, pas)
        invariant forall j :: 0 <= j < n ==>
                    AskByte(State(), control, bus.view, va, j, acc) == AskByte(t0, control, bus.view, va, j, acc)
        invariant AllSettled(t0, control, va, acc, n) ==> SameSlots(t0, State())
      {
        ghost var t := State();
        if AllSettled(t0, control, va, acc, n) {
          SameSlotsSettled(t0, t, control, At(va, i), acc);
          SettledIsQuiet(t, control, bus.view, At(va, i), acc);
        }
        forall j | 0 <= j < n
          ensures AskByte(Translate(t, control, bus.view, At(va, i), acc).tlb, control, bus.view, va, j, acc)
                                   == AskByte(t, control, bus.view, va, j, acc)
        {
          NearbyCompatible(va, i, j);
          AnswerStable(t, control, bus.view, At(va, i), acc, At(va, j));
        }
        forall j | 0 <= j < i
          ensures Pinned(Translate(t, control, bus.view, At(va, i), acc).tlb, control, At(va, j), acc, pas[j]) {
          NearbyCompatible(va, j, i);
          PinnedSurvives(t, control, bus.view, At(va, j), acc, pas[j], At(va, i), acc);
        }
        var answer := TranslateAt(At(va, i), acc);
        assert answer == AskByte(t0, control, bus.view, va, i, acc);
        match answer {
          case Refused(esr, far) =>
            return Some(FaultRecord(esr, Some(far))), pas;
          case Served(pa) =>
            ServedIsPinned(t, control, bus.view, At(va, i), acc);
            var s := bus.Validate(pa, 1, need);
            if s != OK {
              return Some(FaultRecord(Syndrome(acc, NoWalk, -1), None)), pas;
            }
            pas := pas + [pa];
        }
        i := i + 1;
      }
      return None, pas;
    }

    /** The commit loop of a split store: every byte is pinned, so it cannot fail half way. */
    method CommitBytes(va: u64, n: nat, acc: Access, value: u64, ghost pas: seq<u64>)
      requires Valid() && TransferSize(n) && |pas| == n
      requires AllPinned(State(), control, va, acc, pas)
      requires forall i :: 0 <= i < n ==> Covered(bus.regions, pas[i], 1, WRITE)
      modifies this`epoch, this`hits, this`misses, this`flushes, tlb, bus`view, bus.hosts
      ensures Valid() && SameSlots(old(State()), State())
      ensures Landed(old(bus.view), bus.view, pas, ToBytes(value, n))
    {
      hide Ask, Covered, Pinned, Shaped, At, Translate, Store, ToBytes;
      PinnedDistinct(State(), control, va, acc, pas);
      ghost var t0, m0, bs := State(), bus.view, ToBytes(value, n);
      var rest := value;
      var i := 0;
      while i < n
        invariant 0 <= i <= n && Valid() && SameSlots(t0, State())
        invariant ToBytes(rest, n - i) == bs[i..]
        invariant bus.regions == m0.regions && Landed(m0, bus.view, pas[..i], bs[..i])
      {
        SameSlotsPinned(t0, State(), control, At(va, i), acc, pas[i]);
        PinnedAnswer(State(), control, bus.view, At(va, i), acc, pas[i]);
        NextByte(rest, n - i);
        assert bs[i..][0] == bs[i] && bs[i..][1..] == bs[i + 1..];
        var answer := TranslateAt(At(va, i), acc);
        assert answer == Served(pas[i]);
        ghost var before := bus.view;
        CoveredStores(before, pas[i], rest % 256);
        var s := bus.Write(answer.pa, 1, rest % 256);
        if s != OK {
          assert false;
        }
        LandOneMore(m0, before, pas, bs, i, rest % 256);
        rest := rest / 256;
        i := i + 1;
      }
      assert pas[..n] == pas && bs[..n] == bs;
    }

    /** The misaligned store: check every byte, then commit every byte. */
    method WriteSplit(va: u64, n: nat, value: u64) returns (s: Status, ghost pas: seq<u64>)
      requires Valid() && TransferSize(n)
      modifies this`epoch, this`hits, this`misses, this`flushes, this`fault, tlb, bus`view, bus.hosts
      ensures Valid()
      ensures
        var refusal := SplitRefusal(old(State()), control, old(bus.view), va, n, 0, Access(el, true, false), WRITE);
        && s == (if refusal.None? then OK else FAULT)
        && fault == (if refusal.None? then old(fault) else refusal)
      ensures s == OK ==>
                && |pas| == n && Located(old(State()), control, old(bus.view), va, Access(el, true, false), WRITE, pas)
                && Landed(old(bus.view), bus.view, pas, ToBytes(value, n))
      ensures s != OK ==> bus.view == old(bus.view)
      ensures AllSettled(old(State()), control, va, Access(el, true, false), n) ==> SameSlots(old(State()), State())
    {
      hide Ask, Covered, Pinned, Settled, Shaped, At, Translate, SplitRefusal, Landed, ToBytes;
      var acc := Access(el, true, false);
      var refusal;
      refusal, pas := SplitCheck(va, n, acc, WRITE);
      if refusal.Some? {
        fault := refusal;
        return FAULT, pas;
      }
      CommitBytes(va, n, acc, value, pas);
      return OK, pas;
    }

    /** A store through translation: all of it lands where its bytes translated before the store, or none of it does. */
    method Write(va: u64, n: nat, value: u64) returns (s: Status, ghost pas: seq<u64>)
      requires Valid() && TransferSize(n)
      modifies this`epoch, this`hits, this`misses, this`flushes, this`fault, tlb, bus`view, bus.hosts
      ensures Valid()
      ensures
        var refusal := Refusal(old(State()), control, old(bus.view), va, n, Access(el, true, false), WRITE);
        && s == (if refusal.None? then OK else FAULT)
        && fault == (if refusal.None? then old(fault) else refusal)
      ensures s == OK ==>
                && |pas| == n && Located(old(State()), control, old(bus.view), va, Access(el, true, false), WRITE, pas)
                && Landed(old(bus.view), bus.view, pas, ToBytes(value, n))
      ensures s != OK ==> bus.view == old(bus.view)
      ensures AllSettled(old(State()), control, va, Access(el, true, false), n) ==> SameSlots(old(State()), State())
    {
      hide Ask, Covered, Pinned, Settled, Shaped, At, Translate, SplitRefusal, AlignmentRequired;
      var acc := Access(el, true, false);
      ghost var t0, m := State(), bus.view;
      pas := [];
      FirstByte(va);
      var answer := TranslateAt(va, acc);
      AfterFirst(t0, State(), control, m, va, n, acc, WRITE);
      match answer {
        case Refused(esr, far) =>
          fault := Some(FaultRecord(esr, Some(far)));
          return FAULT, pas;
        case Served(pa) =>
          if va % n != 0 {
            if AlignmentRequired(control, el) {
              s := Refuse(acc, Alignment, va);
              return;
            }
            s, pas := WriteSplit(va, n, value);
            return;
          }
          s := bus.Validate(pa, n, WRITE);
          if s != OK {
            s := Refuse(acc, NoWalk, va);
            return;
          }
          pas := AlignedBytes(t0, control, m, va, n, acc, WRITE);
          s := bus.Write(pa, n, value);
          if s != OK {
            assert false;
          }
          LandWhole(m, pa, n, value, pas);
      }
    }

    /** The gathering loop of a split load. */
    method GatherBytes(va: u64, n: nat, acc: Access, ghost pas: seq<u64>) returns (value: nat)
      requires Valid() && TransferSize(n) && |pas| == n
      requires AllPinned(State(), control, va, acc, pas)
      requires forall i :: 0 <= i < n ==> Covered(bus.regions, pas[i], 1, READ)
      modifies this`epoch, this`hits, this`misses, this`flushes, tlb
      ensures Valid() && SameSlots(old(State()), State())
      ensures value == LittleEndian(Gathered(bus.view, pas))
    {
      hide Ask, Covered, Pinned, Shaped, At, Translate, LittleEndian, SignExtend;
      ghost var t0 := State();
      var scale := 1;
      value := 0;
      GatherNone(bus.view);
      var i := 0;
      while i < n
        invariant 0 <= i <= n && Valid() && SameSlots(t0, State())
        invariant scale == Pow256(i) && value == LittleEndian(Gathered(bus.view, pas[..i]))
      {
        SameSlotsPinned(t0, State(), control, At(va, i), acc, pas[i]);
        PinnedAnswer(State(), control, bus.view, At(va, i), acc, pas[i]);
        var answer := TranslateAt(At(va, i), acc);
        assert answer == Served(pas[i]);
        LoadByte(bus.view, pas[i]);
        var s, byte := bus.Read(answer.pa, 1, false);
        if s != OK {
          assert false;
        }
        assert pas[..i + 1] == pas[..i] + [pas[i]];
        GatherOne(bus.view, pas[..i], pas[i]);
        value := value + scale * (byte as nat);
        scale := scale * 256;
        i := i + 1;
      }
      assert pas[..n] == pas;
    }

    /** The misaligned load: check every byte, then gather them. */
    method ReadSplit(va: u64, n: nat) returns (s: Status, raw: nat, ghost pas: seq<u64>)
      requires Valid() && TransferSize(n)
      modifies this`epoch, this`hits, this`misses, this`flushes, this`fault, tlb
      ensures Valid()
      ensures
        var refusal := SplitRefusal(old(State()), control, bus.view, va, n, 0, Access(el, false, false), READ);
        && s == (if refusal.None? then OK else FAULT)
        && fault == (if refusal.None? then old(fault) else refusal)
      ensures s == OK ==>
                && |pas| == n && Located(old(State()), control, bus.view, va, Access(el, false, false), READ, pas)
                && raw == LittleEndian(Gathered(bus.view, pas))
      ensures AllSettled(old(State()), control, va, Access(el, false, false), n) ==> SameSlots(old(State()), State())
    {
      hide Ask, Covered, Pinned, Settled, Shaped, At, Translate, SplitRefusal, LittleEndian;
      var acc := Access(el, false, false);
      raw := 0;
      var refusal;
      refusal, pas := SplitCheck(va, n, acc, READ);
      if refusal.Some? {
        fault := refusal;
        return FAULT, raw, pas;
      }
      raw := GatherBytes(va, n, acc, pas);
      return OK, raw, pas;
    }

    /** A load through translation: the bytes found where the access translated before it. */
    method Read(va: u64, n: nat, signExtend: bool) returns (s: Status, value: u64, ghost pas: seq<u64>)
      requires Valid() && TransferSize(n)
      modifies this`epoch, this`hits, this`misses, this`flushes, this`fault, tlb
      ensures Valid()
      ensures
        var refusal := Refusal(old(State()), control, bus.view, va, n, Access(el, false, false), READ);
        && s == (if refusal.None? then OK else FAULT)
        && fault == (if refusal.None? then old(fault) else refusal)
      ensures s == OK ==>
                && |pas| == n && Located(old(State()), control, bus.view, va, Access(el, false, false), READ, pas)
                && LittleEndian(Gathered(bus.view, pas)) < Pow256(n) <= TWO64
                && value == if signExtend then SignExtend(LittleEndian(Gathered(bus.view, pas)), n)
                            else LittleEndian(Gathered(bus.view, pas))
      ensures AllSettled(old(State()), control, va, Access(el, false, false), n) ==> SameSlots(old(State()), State())
    {
      hide Ask, Covered, Pinned, Settled, Shaped, At, Translate, SplitRefusal, AlignmentRequired, LittleEndian;
      hide SignExtend;
      var acc := Access(el, false, false);
      ghost var t0, m := State(), bus.view;
      pas, value := [], 0;
      FirstByte(va);
      var answer := TranslateAt(va, acc);
      AfterFirst(t0, State(), control, m, va, n, acc, READ);
      var raw: nat;
      match answer {
        case Refused(esr, far) =>
          fault := Some(FaultRecord(esr, Some(far)));
          return FAULT, 0, pas;
        case Served(pa) =>
          if va % n != 0 {
            if AlignmentRequired(control, el) {
              s := Refuse(acc, Alignment, va);
              return;
            }
            s, raw, pas := ReadSplit(va, n);
            if s != OK {
              return FAULT, 0, pas;
            }
          } else {
            s := bus.Validate(pa, n, READ);
            if s != OK {
              s := Refuse(acc, NoWalk, va);
              return;
            }
            pas := AlignedBytes(t0, control, m, va, n, acc, READ);
            LoadWhole(m, pa, n, pas);
            s, raw := bus.Read(pa, n, false);
            if s != OK {
              assert false;
            }
          }
      }
      LittleEndianBound(Gathered(bus.view, pas));
      TransferFits(n);
      return OK, if signExtend then SignExtend(raw, n) else raw, pas;
    }

    /** Hands over the pending record and forgets it. */
    method TakeFault() returns (record: Option<FaultRecord>)
      modifies this`fault
      ensures record == old(fault) && fault == None
    {
      record, fault := fault, None;
    }

    /** Asks, page by page, whether the whole range could be accessed, and moves nothing. */
    method Validate(va: u64, size: nat, need: Perms) returns (s: Status)
      requires Valid() && size < TWO64
      modifies this`epoch, this`hits, this`misses, this`flushes, this`fault, tlb
      ensures Valid()
      ensures
        var probed := ProbeFrom(old(State()), control, bus.view, va, 0, size, Access(el, need.write, need.exec), need);
        && State() == probed.tlb
        && s == (if probed.refusal.None? then OK else FAULT)
        && fault == (if probed.refusal.None? then old(fault) else probed.refusal)
    {
      hide Ask, Covered, Shaped, At, Translate;
      var acc := Access(el, need.write, need.exec);
      ghost var probed := ProbeFrom(State(), control, bus.view, va, 0, size, acc, need);
      var off := 0;
      while off < size
        invariant 0 <= off <= size && Valid() && fault == old(fault)
        invariant ProbeFrom(State(), control, bus.view, va, off, size, acc, need) == probed
      {
        ghost var t := State();
        AskIsAnswer(t, control, bus.view, At(va, off), acc);
        var answer := TranslateAt(At(va, off), acc);
        match answer {
          case Refused(esr, far) =>
            fault := Some(FaultRecord(esr, Some(far)));
            return FAULT;
          case Served(pa) =>
            s := bus.Validate(pa, ChunkAt(va, off, size), need);
            if s != OK {
              s := Refuse(acc, NoWalk, At(va, off));
              return;
            }
        }
        off := off + ChunkAt(va, off, size);
      }
      return OK;
    }
  }

  lemma ResolveBlocked(c: Control, m: Ram, va: nat)
    requires Geometry(c, va).Blocked?
    ensures Resolve(c, m, va) == NoLeaf(Geometry(c, va).cls, Geometry(c, va).at)
  {
  }

  lemma ResolveBegins(c: Control, m: Ram, va: nat)
    requires Geometry(c, va).Begin?
    ensures
      var g := Geometry(c, va);
      && Resolve(c, m, va) == Descend(m, OutputLimit(c), va, g.level, g.base, TableAttrs(false, false, false, false))
      && g.base < OutputLimit(c)
  {
  }

  lemma IndexInPage(va: nat, level: nat)
    requires level <= 3
    ensures TableIndex(va, level) < PAGE
  {
  }

  lemma WalkCases(c: Control, m: Ram, va: u64, acc: Access)
    ensures Walk(c, m, va, acc) ==
            if !Cacheable(c, acc) then Served(va)
            else Verdict(Resolve(c, m, StripTag(c, va)), StripTag(c, va), acc)
    ensures Cacheable(c, acc) && Walk(c, m, va, acc).Served? ==> Resolve(c, m, StripTag(c, va)).Leaf?
    ensures LegalResolution(Resolve(c, m, StripTag(c, va)))
  {
  }

  lemma NextByte(v: nat, n: nat)
    requires n > 0
    ensures ToBytes(v, n) == [(v % 256) as u8] + ToBytes(v / 256, n - 1)
    ensures ToBytes(v, n)[0] == (v % 256) as u8 && ToBytes(v, n)[1..] == ToBytes(v / 256, n - 1)
  {
  }

  lemma CoveredStores(m: Ram, a: u64, v: nat)
    requires Covered(m.regions, a, 1, WRITE)
    ensures Store(m, a, 1, v).Some? && Store(m, a, 1, v).value.regions == m.regions
  {
  }

  lemma FirstByte(va: u64)
    ensures At(va, 0) == va
  {
  }

  lemma SameSlotsSettled(t: Tlb, t': Tlb, c: Control, va: u64, acc: Access)
    requires Shaped(t) && Shaped(t') && SameSlots(t, t') && Settled(t, c, va, acc)
    ensures Settled(t', c, va, acc)
  {
  }

  lemma SameSlotsPinned(t: Tlb, t': Tlb, c: Control, va: u64, acc: Access, pa: u64)
    requires Shaped(t) && Shaped(t') && SameSlots(t, t') && Pinned(t, c, va, acc, pa)
    ensures Pinned(t', c, va, acc, pa)
  {
  }

  /** The opening translation of an access changes none of its bytes' answers, and nothing at all when they are
      settled. */
  lemma AfterFirst(t: Tlb, t': Tlb, c: Control, m: Ram, va: u64, n: nat, acc: Access, need: Perms)
    requires Shaped(t) && t' == Translate(t, c, m, va, acc).tlb && TransferSize(n)
    ensures forall j :: 0 <= j < n ==> AskByte(t', c, m, va, j, acc) == AskByte(t, c, m, va, j, acc)
    ensures SplitRefusal(t', c, m, va, n, 0, acc, need) == SplitRefusal(t, c, m, va, n, 0, acc, need)
    ensures AllSettled(t, c, va, acc, n) ==> SameSlots(t, t') && AllSettled(t', c, va, acc, n)
  {
    hide Ask, Covered, Pinned, Settled, Compatible, Shaped, At;
    FirstByte(va);
    forall j | 0 <= j < n ensures AskByte(t', c, m, va, j, acc) == AskByte(t, c, m, va, j, acc) {
      NearbyCompatible(va, 0, j);
      AnswerStable(t, c, m, va, acc, At(va, j));
    }
    SameAnswersSameRefusal(t, t', c, m, va, n, 0, acc, need);
    if AllSettled(t, c, va, acc, n) {
      assert Settled(t, c, At(va, 0), acc);
      SettledIsQuiet(t, c, m, va, acc);
      forall j | 0 <= j < n ensures Settled(t', c, At(va, j), acc) {
        SameSlotsSettled(t, t', c, At(va, j), acc);
      }
    }
  }

  lemma {:induction false} SameAnswersSameRefusal(t: Tlb, t': Tlb, c: Control, m: Ram, va: u64, n: nat, i: nat,
          acc: Access, need: Perms)
    requires Shaped(t) && Shaped(t') && i <= n
    requires forall j :: i <= j < n ==> AskByte(t', c, m, va, j, acc) == AskByte(t, c, m, va, j, acc)
    ensures SplitRefusal(t', c, m, va, n, i, acc, need) == SplitRefusal(t, c, m, va, n, i, acc, need)
    decreases n - i
  {
    hide AskByte, Covered, Shaped;
    if i < n {
      SameAnswersSameRefusal(t, t', c, m, va, n, i + 1, acc, need);
    }
  }

  lemma LandWhole(m: Ram, pa: u64, n: nat, value: u64, pas: seq<u64>)
    requires WellFormed(m) && Store(m, pa, n, value).Some?
    requires |pas| == n && forall i :: 0 <= i < n ==> pas[i] == pa + i
    ensures Landed(m, Store(m, pa, n, value).value, pas, ToBytes(value, n))
  {
    hide Covered, ToBytes;
    var m' := Store(m, pa, n, value).value;
    StoreChanges(m, pa, n, value);
    forall x | pa <= x < pa + n ensures x in pas {
      assert pas[x - pa] == x;
    }
  }

  lemma LoadByte(m: Ram, a: u64)
    requires Covered(m.regions, a, 1, READ)
    ensures Load(m, a, 1) == Some(ByteAt(m.data, a) as int)
  {
    var bs := Bytes(m.data, a, 1);
    assert bs[0] == ByteAt(m.data, a) && bs[1..] == [];
    assert LittleEndian(bs) == bs[0] as int + 256 * LittleEndian(bs[1..]);
  }

  lemma LoadWhole(m: Ram, pa: u64, n: nat, pas: seq<u64>)
    requires Covered(m.regions, pa, n, READ)
    requires |pas| == n && forall i :: 0 <= i < n ==> pas[i] == pa + i
    ensures Load(m, pa, n) == Some(LittleEndian(Gathered(m, pas)))
  {
    assert Bytes(m.data, pa, n) == Gathered(m, pas);
  }

  lemma GatherNone(m: Ram)
    ensures LittleEndian(Gathered(m, [])) == 0
  {
  }

  lemma GatherOne(m: Ram, pas: seq<u64>, pa: u64)
    ensures LittleEndian(Gathered(m, pas + [pa])) ==
            LittleEndian(Gathered(m, pas)) + Pow256(|pas|) * ByteAt(m.data, pa) as int
  {
    assert Gathered(m, pas + [pa]) == Gathered(m, pas) + [ByteAt(m.data, pa)];
    LittleEndianSnoc(Gathered(m, pas), ByteAt(m.data, pa));
  }
}
