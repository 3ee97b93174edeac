/** Translations that have just succeeded stay put: the facts behind check-then-commit accesses. */
module Pinning {
  import opened Words
  import opened FlatMemory
  import opened Translation
  import opened TranslationCache

  /** The answer the layer gives for one address in a given cache state. */
  function Ask(t: Tlb, c: Control, m: Ram, va: u64, acc: Access): Answer
    requires Shaped(t)
  {
    Translate(t, c, m, va, acc).answer
  }

  /** The cache alone now answers `va` with `pa`, whatever memory becomes. */
  predicate Pinned(t: Tlb, c: Control, va: u64, acc: Access, pa: u64)
    requires Shaped(t)
  {
    && t.epoch == Some(c)
    && if Cacheable(c, acc) then
         && Live(t.entries, StripTag(c, va))
         && Serve(t.entries[Index(StripTag(c, va))], StripTag(c, va), acc) == Served(pa)
       else pa == va
  }

  /** Pinned somewhere: translating `va` will not touch a slot. */
  predicate Settled(t: Tlb, c: Control, va: u64, acc: Access)
    requires Shaped(t)
  {
    && t.epoch == Some(c)
    && (Cacheable(c, acc) ==>
          && Live(t.entries, StripTag(c, va))
          && Serve(t.entries[Index(StripTag(c, va))], StripTag(c, va), acc).Served?)
  }

  lemma SettledIsQuiet(t: Tlb, c: Control, m: Ram, va: u64, acc: Access)
    requires Shaped(t) && Settled(t, c, va, acc)
    ensures
      var t' := Translate(t, c, m, va, acc).tlb;
      t'.entries == t.entries && t'.epoch == t.epoch
  {
  }

  lemma PinnedIsSettled(t: Tlb, c: Control, va: u64, acc: Access, pa: u64)
    requires Shaped(t) && Pinned(t, c, va, acc, pa)
    ensures Settled(t, c, va, acc)
  {
  }

  /** Two addresses that are in one page or use different slots. */
  predicate Compatible(va: u64, vb: u64) {
    SamePage(va, vb) || Index(va) != Index(vb)
  }

  lemma StripTagIndex(c: Control, va: u64)
    ensures Index(StripTag(c, va)) == Index(va)
    ensures StripTag(c, va) % PAGE == va % PAGE
  {
    if TagIgnored(c, va) {
      PageSplit(va, 0x100_0000_0000_0000 / PAGE);
      var tva := va % 0x100_0000_0000_0000;
      assert tva / PAGE == (va / PAGE) % 0x1000_0000_0000;
    }
  }

  lemma SamePageSameHalf(va: u64, vb: u64)
    requires SamePage(va, vb)
    ensures UseTtbr1(va) == UseTtbr1(vb)
  {
    PageSplit(va, 0x800_0000_0000);
    PageSplit(vb, 0x800_0000_0000);
  }

  lemma SamePageStripped(va: u64, vb: u64)
    requires SamePage(va, vb)
    ensures SamePage(va % 0x100_0000_0000_0000, vb % 0x100_0000_0000_0000)
  {
    PageSplit(va, 0x100_0000_0000_0000 / PAGE);
    PageSplit(vb, 0x100_0000_0000_0000 / PAGE);
    StrippedPage(va / PAGE % 0x1000_0000_0000, va % PAGE);
    StrippedPage(vb / PAGE % 0x1000_0000_0000, vb % PAGE);
  }

  lemma StrippedPage(page: nat, off: nat)
    requires off < PAGE
    ensures (PAGE * page + off) / PAGE == page
  {
    ModUnique(PAGE * page + off, PAGE, page, off);
  }

  lemma StripTagSamePage(c: Control, va: u64, vb: u64)
    requires SamePage(va, vb)
    ensures TagIgnored(c, va) == TagIgnored(c, vb)
    ensures SamePage(StripTag(c, va), StripTag(c, vb))
  {
    hide UseTtbr1, SamePage, Bit;
    SamePageSameHalf(va, vb);
    SamePageStripped(va, vb);
  }

  /** A pinned address is answered from the cache, and answering it changes no slot. */
  lemma PinnedAnswer(t: Tlb, c: Control, m: Ram, va: u64, acc: Access, pa: u64)
    requires Shaped(t) && Pinned(t, c, va, acc, pa)
    ensures Ask(t, c, m, va, acc) == Served(pa)
    ensures
      var t' := Translate(t, c, m, va, acc).tlb;
      t'.entries == t.entries && t'.epoch == t.epoch
  {
  }

  /** Whatever was just served is pinned. */
  lemma ServedIsPinned(t: Tlb, c: Control, m: Ram, va: u64, acc: Access)
    requires Shaped(t) && Ask(t, c, m, va, acc).Served?
    ensures Pinned(Translate(t, c, m, va, acc).tlb, c, va, acc, Ask(t, c, m, va, acc).pa)
  {
    hide Resolve;
    var p, tva := Prime(t, c), StripTag(c, va);
    if Cacheable(c, acc) && !Live(p.entries, tva) {
      var r := Resolve(c, m, tva);
      PackedLeaf(c, tva, r);
      var e := EntryFor(c, tva, r);
      assert LeafOf(e) == MovedTo(r, PageBase(tva));
      LeafKeepsOffset(c, m, tva);
    }
  }

  /** A leaf keeps the page offset of the address it translates. */
  lemma LeafKeepsOffset(c: Control, m: Ram, va: nat)
    requires Resolve(c, m, va).Leaf?
    ensures Resolve(c, m, va).pa % PAGE == va % PAGE
  {
    hide Resolve;
    ResolveSamePage(c, m, va, va);
  }

  /** Pinning one address pins its whole page. */
  lemma PinnedPage(t: Tlb, c: Control, va: u64, vb: u64, acc: Access, pa: u64)
    requires Shaped(t) && Pinned(t, c, va, acc, pa) && SamePage(va, vb)
    ensures pa % PAGE == va % PAGE
    ensures pa - pa % PAGE + vb % PAGE < TWO64
    ensures Pinned(t, c, vb, acc, pa - pa % PAGE + vb % PAGE)
  {
    StripTagSamePage(c, va, vb);
    StripTagIndex(c, va);
    StripTagIndex(c, vb);
  }

  /** Translating a compatible address leaves a pinned one pinned. */
  lemma PinnedSurvives(t: Tlb, c: Control, m: Ram, va: u64, acc: Access, pa: u64, vb: u64, acc': Access)
    requires Shaped(t) && Pinned(t, c, va, acc, pa) && Compatible(va, vb)
    requires Cacheable(c, acc') == Cacheable(c, acc)
    ensures Pinned(Translate(t, c, m, vb, acc').tlb, c, va, acc, pa)
  {
    hide Resolve;
    StripTagIndex(c, va);
    StripTagIndex(c, vb);
    if SamePage(va, vb) {
      StripTagSamePage(c, va, vb);
    }
  }

  /** Translating one address does not change what a compatible one is answered. */
  lemma AnswerStable(t: Tlb, c: Control, m: Ram, va: u64, acc: Access, vb: u64)
    requires Shaped(t) && Compatible(va, vb)
    ensures Ask(Translate(t, c, m, va, acc).tlb, c, m, vb, acc) == Ask(t, c, m, vb, acc)
  {
    StripTagIndex(c, va);
    StripTagIndex(c, vb);
    var t' := Translate(t, c, m, va, acc).tlb;
    var p := Prime(t, c);
    if SamePage(va, vb) && Ask(t, c, m, va, acc).Served? {
      ServedIsPinned(t, c, m, va, acc);
      var pa := Ask(t, c, m, va, acc).pa;
      PinnedPage(t', c, va, vb, acc, pa);
      PinnedAnswer(t', c, m, vb, acc, pa - pa % PAGE + vb % PAGE);
      StripTagSamePage(c, va, vb);
      AskSamePage(t, c, m, va, vb, acc);
    }
  }

  /** Addresses of one page are answered alike, up to their offset. */
  lemma AskSamePage(t: Tlb, c: Control, m: Ram, va: u64, vb: u64, acc: Access)
    requires Shaped(t) && SamePage(va, vb) && Ask(t, c, m, va, acc).Served?
    ensures
      var pa := Ask(t, c, m, va, acc).pa;
      pa % PAGE == va % PAGE && pa - pa % PAGE + vb % PAGE < TWO64 &&
      Ask(t, c, m, vb, acc) == Served(pa - pa % PAGE + vb % PAGE)
  {
    hide Resolve;
    StripTagSamePage(c, va, vb);
    StripTagIndex(c, va);
    StripTagIndex(c, vb);
    var p := Prime(t, c);
    if Cacheable(c, acc) && !Live(p.entries, StripTag(c, va)) {
      ResolveSamePage(c, m, StripTag(c, va), StripTag(c, vb));
      LeafKeepsOffset(c, m, StripTag(c, va));
    }
  }

  lemma WrapPage(x: nat)
    ensures Wrap(x) % PAGE == x % PAGE
    ensures Wrap(x) / PAGE == (x / PAGE) % 0x10_0000_0000_0000
    ensures Index(Wrap(x)) == (x / PAGE) % SETS
  {
    PageSplit(x, 0x10_0000_0000_0000);
    PageSplit(x / PAGE, 0x100_0000_0000);
    assert PAGE * 0x10_0000_0000_0000 == TWO64 && PAGE * 0x100_0000_0000 == 0x10_0000_0000_0000;
  }

  /** Bytes of an access no longer than a page are pairwise compatible, even across the top of the address space. */
  lemma NearbyCompatible(va: u64, i: nat, j: nat)
    requires i < PAGE && j < PAGE
    ensures Compatible(At(va, i), At(va, j))
    ensures i != j ==> At(va, i) % PAGE != At(va, j) % PAGE
  {
    hide Wrap, Index;
    WrapPage(va + i);
    WrapPage(va + j);
    var p, q := (va + i) / PAGE, (va + j) / PAGE;
    assert -1 <= p - q <= 1;
  }
}
