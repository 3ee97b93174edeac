/** When a translated access is refused, with which syndrome and address, and when it goes through. */
module RefusalMeaning {
  import opened Words
  import opened FlatMemory
  import opened Translation
  import opened TranslationCache
  import opened Pinning
  import opened BusSpec
  import opened PairAccess
  import opened WalkMeaning

  /** Byte `i` of the access can be had: it translates, and the bus serves its place. */
  ghost predicate Reachable(t: Tlb, c: Control, m: Ram, va: u64, i: nat, acc: Access, need: Perms)
    requires Shaped(t)
  {
    var answer := Ask(t, c, m, (va + i) % 0x1_0000_0000_0000_0000, acc);
    answer.Served? && Covered(m.regions, answer.pa, 1, need)
  }

  /** The policy on misaligned accesses: SCTLR.SA0, bit 4, at EL0 and SCTLR.A, bit 1, above. */
  predicate Strict(c: Control, el: El) {
    if el == 0 then c.sctlr / 16 % 2 == 1 else c.sctlr / 2 % 2 == 1
  }

  /** An aligned access: the walk's own refusal; else 0x2C at its address unless one region serves all of it. */
  lemma AlignedRefusal(t: Tlb, c: Control, m: Ram, va: u64, n: nat, acc: Access, need: Perms)
    requires Shaped(t) && n > 0 && va % n == 0 && acc.el < 3
    ensures
      var answer := Ask(t, c, m, va, acc);
      Refusal(t, c, m, va, n, acc, need) ==
        match answer
        case Refused(esr, far) => Some(FaultRecord(esr, Some(far)))
        case Served(pa) =>
          if Covered(m.regions, pa, n, need) then None else Some(FaultRecord(Syn(acc, 0x2C), Some(va)))
  {
    hide Ask, Covered, Shaped, Syndrome;
    SyndromeIs(acc, NoWalk, -1);
  }

  /** A misaligned access whose address translates is refused with 0x21 at its address where the policy is strict.
      Otherwise it is refused exactly if some byte of it cannot be had, and for the first such byte: with the walk's own
      refusal, or with 0x2C and no address where the bus does not serve its place. */
  lemma MisalignedRefusal(t: Tlb, c: Control, m: Ram, va: u64, n: nat, acc: Access, need: Perms)
    requires Shaped(t) && n > 0 && va % n != 0 && acc.el < 3 && Ask(t, c, m, va, acc).Served?
    ensures
      var refusal := Refusal(t, c, m, va, n, acc, need);
      if Strict(c, acc.el) then refusal == Some(FaultRecord(Syn(acc, 0x21), Some(va)))
      else
        && (refusal.None? <==> forall i :: 0 <= i < n ==> Reachable(t, c, m, va, i, acc, need))
        && (refusal.Some? ==> exists i :: FirstLost(t, c, m, va, n, i, acc, need, refusal.value))
  {
    hide Ask, Covered, Shaped, Syndrome, Reachable, FirstLost, SplitRefusal, Syn;
    SyndromeIs(acc, Alignment, -1);
    if !Strict(c, acc.el) {
      SplitMeans(t, c, m, va, n, 0, acc, need);
    }
  }

  /** Byte `i` is the first that cannot be had, and the record says why. */
  ghost predicate FirstLost(t: Tlb, c: Control, m: Ram, va: u64, n: nat, i: int, acc: Access, need: Perms,
          record: FaultRecord)
    requires Shaped(t)
  {
    && 0 <= i < n && !Reachable(t, c, m, va, i, acc, need)
    && (forall j :: 0 <= j < i ==> Reachable(t, c, m, va, j, acc, need))
    && record == match Ask(t, c, m, (va + i) % 0x1_0000_0000_0000_0000, acc)
                 case Refused(esr, far) => FaultRecord(esr, Some(far))
                 case Served(_) => FaultRecord(Syn(acc, 0x2C), None)
  }

  lemma {:induction false} SplitMeans(t: Tlb, c: Control, m: Ram, va: u64, n: nat, i: nat, acc: Access, need: Perms)
    requires Shaped(t) && i <= n && acc.el < 3
    requires forall j :: 0 <= j < i ==> Reachable(t, c, m, va, j, acc, need)
    ensures
      var refusal := SplitRefusal(t, c, m, va, n, i, acc, need);
      && (refusal.None? <==> forall j :: 0 <= j < n ==> Reachable(t, c, m, va, j, acc, need))
      && (refusal.Some? ==> exists j :: FirstLost(t, c, m, va, n, j, acc, need, refusal.value))
    decreases n - i
  {
    hide Ask, Covered, Shaped, Syndrome, Syn;
    if i < n {
      SyndromeIs(acc, NoWalk, -1);
      if Reachable(t, c, m, va, i, acc, need) {
        SplitMeans(t, c, m, va, n, i + 1, acc, need);
      } else {
        assert FirstLost(t, c, m, va, n, i, acc, need, SplitRefusal(t, c, m, va, n, i, acc, need).value);
      }
    }
  }

  /** The record of an instruction the alignment policy stops half way: 0x21 at its address. */
  lemma MisalignmentMeans(el: El, write: bool, addr: u64, c: Control)
    requires el < 3
    ensures Misalignment(el, write, addr) == Some(FaultRecord(Syn(Access(el, write, false), 0x21), Some(addr)))
    ensures AlignmentRequired(c, el) <==> Strict(c, el)
  {
    hide Syndrome, Syn;
    SyndromeIs(Access(el, write, false), Alignment, -1);
  }
}
