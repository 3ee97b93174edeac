/** Validate-then-commit transfers of several pieces through translation: the pair and vector forms. */
module PairAccess {
  import opened Words
  import opened FlatMemory
  import opened Translation
  import opened TranslationCache
  import opened Pinning
  import opened BusSpec
  import opened MmuBus

  /** How a multi-piece transfer ends; `Aborted` is the host abort on a validated access that fails. */
  datatype Transfer = Committed | Faulted | Aborted

  /** Longest run of pieces an instruction moves: the cache line DC ZVA clears. */
  const LONGEST: nat := 64

  /** Probes pieces `k`, `k`+1, ... of a run of `count` pieces of `n` bytes. */
  function ProbeRun(t: Tlb, c: Control, m: Ram, addr: u64, k: nat, count: nat, n: nat, acc: Access,
          need: Perms): (r: Probed)
    requires Shaped(t) && k <= count
    ensures Shaped(r.tlb)
    decreases count - k
  {
    if k == count then Probed(t, None) else
    var p := ProbeFrom(t, c, m, At(addr, k * n), 0, n, acc, need);
    if p.refusal.Some? then p else ProbeRun(p.tlb, c, m, addr, k + 1, count, n, acc, need)
  }

  function RunBytes(values: seq<u64>, n: nat): (bs: seq<u8>)
    ensures |bs| == |values| * n
  {
    if values == [] then [] else
      RunBytes(values[..|values| - 1], n) + ToBytes(values[|values| - 1], n)
  }

  lemma AtAt(addr: u64, a: nat, b: nat)
    ensures At(At(addr, a), b) == At(addr, a + b)
  {
    var q := (addr + a) / TWO64;
    ModUnique(addr + a + b, TWO64, q + (At(addr, a) + b) / TWO64, At(At(addr, a), b));
  }

  lemma PieceAlignment(addr: u64, k: nat, n: nat)
    requires TransferSize(n)
    ensures At(addr, k * n) % n == addr % n
  {
    AddMultiple(addr, k, n);
    var q := TWO64 / n;
    assert n * q == TWO64;
    WrapKeepsResidue(addr + k * n, n, q);
  }

  lemma Distribute(a: nat, b: nat, n: nat)
    ensures (a + b) * n == a * n + b * n
    ensures a * n >= 0 && b * n >= 0
  {
  }

  lemma AddMultiple(a: nat, k: nat, n: nat)
    requires n > 0
    ensures (a + k * n) % n == a % n
  {
    Distribute(a / n, k, n);
    assert a == (a / n) * n + a % n;
    ModUnique(a + k * n, n, a / n + k, a % n);
  }

  lemma WrapKeepsResidue(x: nat, n: nat, q: nat)
    requires n > 0 && n * q == TWO64
    ensures (x % TWO64) % n == x % n
  {
    var w, h := x % TWO64, x / TWO64;
    var z := w / n;
    assert x == (h * q + z) * n + w % n by {
      assert h * TWO64 == h * (q * n) == (h * q) * n;
      assert w == z * n + w % n;
    }
    ModUnique(x, n, h * q + z, w % n);
  }

  lemma {:induction false} ProbeRunStable(t: Tlb, c: Control, m: Ram, addr: u64, k: nat, count: nat, n: nat,
          acc: Access, need: Perms, j: nat)
    requires Shaped(t) && k <= count && count * n <= LONGEST && j < LONGEST
    ensures
      var t' := ProbeRun(t, c, m, addr, k, count, n, acc, need).tlb;
      && AskByte(t', c, m, addr, j, acc) == AskByte(t, c, m, addr, j, acc)
      && forall pa :: Pinned(t, c, At(addr, j), acc, pa) ==> Pinned(t', c, At(addr, j), acc, pa)
    decreases count - k
  {
    hide Ask, Pinned, Compatible, At, Shaped, ProbeFrom;
    if k < count {
      PieceInRun(k, count, n);
      forall i | 0 <= i < n ensures Compatible(At(At(addr, k * n), i), At(addr, j)) {
        AtAt(addr, k * n, i);
        NearbyCompatible(addr, k * n + i, j);
      }
      ProbeStable(t, c, m, At(addr, k * n), 0, n, acc, need, At(addr, j));
      var p := ProbeFrom(t, c, m, At(addr, k * n), 0, n, acc, need);
      if p.refusal.None? {
        ProbeRunStable(p.tlb, c, m, addr, k + 1, count, n, acc, need, j);
      }
    }
  }

  lemma PieceInRun(k: nat, count: nat, n: nat)
    requires k < count
    ensures (k + 1) * n <= count * n && (k + 1) * n == k * n + n
  {
    Distribute(k, 1, n);
    Distribute(k + 1, count - k - 1, n);
  }

  /** Piece `k` is granted as a whole. */
  ghost predicate PieceGranted(t: Tlb, c: Control, m: Ram, addr: u64, k: nat, n: nat, acc: Access, need: Perms) {
    && Shaped(t)
    && AskByte(t, c, m, addr, k * n, acc).Served?
    && Covered(m.regions, AskByte(t, c, m, addr, k * n, acc).pa, n, need)
  }

  /** A run whose probes all succeed has every byte placed and pinned, and every aligned piece granted whole. */
  lemma {:induction false} ProbeRunPlaces(t: Tlb, c: Control, m: Ram, addr: u64, k: nat, count: nat, n: nat,
          acc: Access, need: Perms)
    requires Shaped(t) && k <= count && TransferSize(n) && count * n <= LONGEST && LegalTable(m.regions)
    requires ProbeRun(t, c, m, addr, k, count, n, acc, need).refusal.None?
    ensures
      var t' := ProbeRun(t, c, m, addr, k, count, n, acc, need).tlb;
      && (forall j :: k * n <= j < count * n ==> ProbedByte(t, t', c, m, addr, j, acc, need))
      && (addr % n == 0 ==> forall i :: k <= i < count ==> PieceGranted(t, c, m, addr, i, n, acc, need))
    decreases count - k
  {
    hide Ask, Pinned, Covered, Compatible, At, Shaped, ProbeFrom;
    if k < count {
      PieceInRun(k, count, n);
      var base := At(addr, k * n);
      var p := ProbeFrom(t, c, m, base, 0, n, acc, need);
      var t' := ProbeRun(t, c, m, addr, k, count, n, acc, need).tlb;
      ProbePlaces(t, c, m, base, 0, n, acc, need);
      ProbeRunPlaces(p.tlb, c, m, addr, k + 1, count, n, acc, need);
      forall j | 0 <= j < count * n
        ensures AskByte(p.tlb, c, m, addr, j, acc) == AskByte(t, c, m, addr, j, acc)
        ensures forall pa :: Pinned(p.tlb, c, At(addr, j), acc, pa) ==> Pinned(t', c, At(addr, j), acc, pa)
      {
        forall i | 0 <= i < n ensures Compatible(At(base, i), At(addr, j)) {
          AtAt(addr, k * n, i);
          NearbyCompatible(addr, k * n + i, j);
        }
        ProbeStable(t, c, m, base, 0, n, acc, need, At(addr, j));
        ProbeRunStable(p.tlb, c, m, addr, k + 1, count, n, acc, need, j);
      }
      forall j | k * n <= j < count * n ensures ProbedByte(t, t', c, m, addr, j, acc, need) {
        if j < (k + 1) * n {
          AtAt(addr, k * n, j - k * n);
          assert ProbedByte(t, p.tlb, c, m, base, j - k * n, acc, need);
        } else {
          assert ProbedByte(p.tlb, t', c, m, addr, j, acc, need);
        }
      }
      if addr % n == 0 {
        PieceAlignment(addr, k, n);
        ProbeAligned(t, c, m, base, n, acc, need);
        forall i | k <= i < count ensures PieceGranted(t, c, m, addr, i, n, acc, need) {
          if i > k {
            PieceInRun(i, count, n);
            assert PieceGranted(p.tlb, c, m, addr, i, n, acc, need);
          }
        }
      }
    }
  }

  /** What a run's commit phase starts from: everything placed at `pas`, nothing written yet. */
  ghost predicate Ready(t: Tlb, c: Control, rs: seq<Region>, addr: u64, count: nat, n: nat, acc: Access, need: Perms,
          pas: seq<u64>) {
    && Shaped(t) && |pas| == count * n && n > 0
    && AllPinned(t, c, addr, acc, pas)
    && (forall j :: 0 <= j < |pas| ==> Covered(rs, pas[j], 1, need))
    && (addr % n == 0 ==> forall k :: 0 <= k < count && k * n < |pas| ==> Covered(rs, pas[k * n], n, need))
  }

  lemma ProbedIsReady(t: Tlb, c: Control, m: Ram, addr: u64, count: nat, n: nat, acc: Access,
          need: Perms) returns (pas: seq<u64>)
    requires Shaped(t) && TransferSize(n) && count * n <= LONGEST && LegalTable(m.regions)
    requires ProbeRun(t, c, m, addr, 0, count, n, acc, need).refusal.None?
    ensures Ready(ProbeRun(t, c, m, addr, 0, count, n, acc, need).tlb, c, m.regions, addr, count, n, acc, need, pas)
    ensures Located(t, c, m, addr, acc, need, pas)
  {
    hide Ask, Pinned, Covered, At, Shaped, ProbeRun;
    var t' := ProbeRun(t, c, m, addr, 0, count, n, acc, need).tlb;
    ProbeRunPlaces(t, c, m, addr, 0, count, n, acc, need);
    assert forall j :: 0 <= j < count * n ==> ProbedByte(t, t', c, m, addr, j, acc, need);
    pas := seq(count * n, j requires 0 <= j < count * n => PlacedAt(t, c, m, addr, j, acc));
    forall j | 0 <= j < |pas|
      ensures AskByte(t, c, m, addr, j, acc) == Served(pas[j]) && Covered(m.regions, pas[j], 1, need)
      ensures Pinned(t', c, At(addr, j), acc, pas[j])
    {
      assert ProbedByte(t, t', c, m, addr, j, acc, need);
    }
    if addr % n == 0 {
      forall k | 0 <= k < count && k * n < |pas| ensures Covered(m.regions, pas[k * n], n, need) {
        assert PieceGranted(t, c, m, addr, k, n, acc, need);
      }
    }
  }

  function PlacedAt(t: Tlb, c: Control, m: Ram, addr: u64, j: nat, acc: Access): u64
    requires Shaped(t)
  {
    match AskByte(t, c, m, addr, j, acc)
    case Served(pa) => pa
    case Refused(_, _) => 0
  }

  /** A piece of a ready run is refused only by the alignment policy. */
  lemma ReadyPiece(t: Tlb, c: Control, m: Ram, addr: u64, count: nat, n: nat, acc: Access, need: Perms, pas: seq<u64>,
          k: nat)
    requires TransferSize(n) && k < count && Ready(t, c, m.regions, addr, count, n, acc, need, pas)
    ensures (k + 1) * n <= |pas| && (k + 1) * n == k * n + n
    ensures AllPinned(t, c, At(addr, k * n), acc, pas[k * n..(k + 1) * n])
    ensures AllSettled(t, c, At(addr, k * n), acc, n)
    ensures forall i :: 0 <= i < n ==> AskByte(t, c, m, At(addr, k * n), i, acc) == Served(pas[k * n + i])
    ensures Refusal(t, c, m, At(addr, k * n), n, acc, need) ==
            if addr % n != 0 && AlignmentRequired(c, acc.el) then
              Some(FaultRecord(Syndrome(acc, Alignment, -1), Some(At(addr, k * n))))
            else None
  {
    hide Ask, Pinned, Settled, Covered, At, Shaped, AlignmentRequired, SplitRefusal;
    PieceInRun(k, count, n);
    PieceAlignment(addr, k, n);
    var base := At(addr, k * n);
    forall i | 0 <= i < n
      ensures Pinned(t, c, At(base, i), acc, pas[k * n + i]) && Settled(t, c, At(base, i), acc)
      ensures AskByte(t, c, m, base, i, acc) == Served(pas[k * n + i])
    {
      AtAt(addr, k * n, i);
      assert Pinned(t, c, At(addr, k * n + i), acc, pas[k * n + i]);
      PinnedIsSettled(t, c, At(base, i), acc, pas[k * n + i]);
      PinnedAnswer(t, c, m, At(base, i), acc, pas[k * n + i]);
    }
    FirstByte(base);
    assert AskByte(t, c, m, base, 0, acc) == Served(pas[k * n + 0]);
    assert Ask(t, c, m, base, acc) == Served(pas[k * n]);
    SplitLocates(t, c, m, base, n, 0, acc, need);
    forall j | 0 <= j < n ensures Covered(m.regions, AskByte(t, c, m, base, j, acc).pa, 1, need) {
      assert Covered(m.regions, pas[k * n + j], 1, need);
    }
  }

  lemma ReadyAfter(t: Tlb, t': Tlb, c: Control, rs: seq<Region>, addr: u64, count: nat, n: nat, acc: Access,
          need: Perms, pas: seq<u64>)
    requires Shaped(t') && SameSlots(t, t') && Ready(t, c, rs, addr, count, n, acc, need, pas)
    ensures Ready(t', c, rs, addr, count, n, acc, need, pas)
  {
    hide Pinned, Covered, Shaped, SameSlots;
    forall j | 0 <= j < |pas| ensures Pinned(t', c, At(addr, j), acc, pas[j]) {
      SameSlotsPinned(t, t', c, At(addr, j), acc, pas[j]);
    }
  }

  /** The validation phase common to every multi-piece form. */
  method ValidateRun(mmu: Mmu, addr: u64, count: nat, n: nat, need: Perms) returns (s: Status)
    requires mmu.Valid() && TransferSize(n)
    modifies mmu`epoch, mmu`hits, mmu`misses, mmu`flushes, mmu`fault, mmu.tlb
    ensures mmu.Valid()
    ensures
      var probed := ProbeRun(old(mmu.State()), mmu.control, mmu.bus.view, addr, 0, count, n,
                          Access(mmu.el, need.write, need.exec), need);
      && s == (if probed.refusal.None? then OK else FAULT)
      && mmu.State() == probed.tlb
      && mmu.fault == (if probed.refusal.None? then old(mmu.fault) else probed.refusal)
  {
    hide ProbeFrom, Shaped;
    var acc := Access(mmu.el, need.write, need.exec);
    ghost var probed := ProbeRun(mmu.State(), mmu.control, mmu.bus.view, addr, 0, count, n, acc, need);
    var k := 0;
    while k < count
      invariant 0 <= k <= count && mmu.Valid() && mmu.fault == old(mmu.fault)
      invariant ProbeRun(mmu.State(), mmu.control, mmu.bus.view, addr, k, count, n, acc, need) == probed
    {
      s := mmu.Validate(At(addr, k * n), n, need);
      if s != OK {
        return;
      }
      k := k + 1;
    }
    return OK;
  }

  /** The record of an access the alignment policy refuses. */
  function Misalignment(el: El, write: bool, addr: u64): Option<FaultRecord> {
    Some(FaultRecord(Syndrome(Access(el, write, false), Alignment, -1), Some(addr)))
  }

  /** What the validation of a whole run refuses, if anything: the first piece's refusal. */
  function RunRefusal(t: Tlb, c: Control, m: Ram, addr: u64, count: nat, n: nat, acc: Access, need: Perms):
    Option<FaultRecord>
    requires Shaped(t)
  {
    ProbeRun(t, c, m, addr, 0, count, n, acc, need).refusal
  }

  /** The record a run leaves: its validation's refusal, the host abort's alignment refusal, or the one before it. */
  function RecordAfter(r: Transfer, was: Option<FaultRecord>, refusal: Option<FaultRecord>, el: El, write: bool,
          addr: u64):
    Option<FaultRecord>
  {
    match r
    case Committed => was
    case Faulted => refusal
    case Aborted => Misalignment(el, write, addr)
  }

  /** The commit phase of a validated run of stores. */
  method CommitRun(mmu: Mmu, addr: u64, n: nat, values: seq<u64>, ghost pas: seq<u64>) returns (r: Transfer)
    requires mmu.Valid() && TransferSize(n) && 0 < |values|
    requires |values| * n <= LONGEST
    requires Ready(mmu.State(), mmu.control, mmu.bus.regions, addr, |values|, n, Access(mmu.el, true, false),
                   WRITE, pas)
    modifies mmu`epoch, mmu`hits, mmu`misses, mmu`flushes, mmu`fault, mmu.tlb, mmu.bus`view, mmu.bus.hosts
    ensures mmu.Valid() && r != Faulted
    ensures r == Aborted <==> addr % n != 0 && AlignmentRequired(mmu.control, mmu.el)
    ensures mmu.fault == if r == Aborted then Misalignment(mmu.el, true, addr) else old(mmu.fault)
    ensures r == Committed ==> Landed(old(mmu.bus.view), mmu.bus.view, pas, RunBytes(values, n))
    ensures r != Committed ==> mmu.bus.view == old(mmu.bus.view)
  {
    hide Pinned, Settled, Covered, At, Shaped, AlignmentRequired, Refusal, Ask, ToBytes, Ready, LegalTable, Distinct;
    ghost var c, m0, acc, count := mmu.control, mmu.bus.view, Access(mmu.el, true, false), |values|;
    ReadyDistinct(mmu.State(), c, m0.regions, addr, count, n, acc, WRITE, pas);
    var k := 0;
    while k < |values|
      invariant 0 <= k <= count && mmu.Valid() && k * n <= |pas| && mmu.bus.regions == m0.regions
      invariant Ready(mmu.State(), c, m0.regions, addr, count, n, acc, WRITE, pas)
      invariant Landed(m0, mmu.bus.view, pas[..k * n], RunBytes(values[..k], n))
      invariant k == 0 ==> mmu.bus.view == m0
      invariant mmu.fault == old(mmu.fault)
      invariant k > 0 ==> !(addr % n != 0 && AlignmentRequired(c, mmu.el))
    {
      ghost var t, m1 := mmu.State(), mmu.bus.view;
      ReadyPiece(t, c, m1, addr, count, n, acc, WRITE, pas, k);
      var s;
      ghost var placed;
      s, placed := mmu.Write(At(addr, k * n), n, values[k]);
      if s != OK {
        FirstByte(addr);
        return Aborted;
      }
      SamePlaces(t, c, m1, At(addr, k * n), acc, WRITE, placed, pas[k * n..(k + 1) * n]);
      RunGrows(m0, m1, mmu.bus.view, values, n, k, pas);
      ReadyAfter(t, mmu.State(), c, m0.regions, addr, count, n, acc, WRITE, pas);
      k := k + 1;
    }
    assert pas[..k * n] == pas && values[..k] == values;
    return Committed;
  }

  lemma ReadyDistinct(t: Tlb, c: Control, rs: seq<Region>, addr: u64, count: nat, n: nat, acc: Access, need: Perms,
          pas: seq<u64>)
    requires Ready(t, c, rs, addr, count, n, acc, need, pas) && count * n <= LONGEST
    ensures Distinct(pas) && |pas| == count * n
  {
    PinnedDistinct(t, c, addr, acc, pas);
  }

  lemma SamePlaces(t: Tlb, c: Control, m: Ram, base: u64, acc: Access, need: Perms, placed: seq<u64>, pas: seq<u64>)
    requires Shaped(t) && |placed| == |pas| && Located(t, c, m, base, acc, need, placed)
    requires forall i :: 0 <= i < |pas| ==> AskByte(t, c, m, base, i, acc) == Served(pas[i])
    ensures placed == pas
  {
    hide AskByte;
    forall i | 0 <= i < |pas| ensures placed[i] == pas[i] {
      assert AskByte(t, c, m, base, i, acc) == Served(placed[i]);
    }
  }

  lemma RunGrows(m0: Ram, m1: Ram, m2: Ram, values: seq<u64>, n: nat, k: nat, pas: seq<u64>)
    requires k < |values| && (k + 1) * n == k * n + n && (k + 1) * n <= |pas| && Distinct(pas)
    requires Landed(m0, m1, pas[..k * n], RunBytes(values[..k], n))
    requires Landed(m1, m2, pas[k * n..(k + 1) * n], ToBytes(values[k], n))
    ensures Landed(m0, m2, pas[..(k + 1) * n], RunBytes(values[..k + 1], n))
  {
    hide ToBytes, Landed;
    assert values[..k + 1][..k] == values[..k] && values[..k + 1][k] == values[k];
    assert pas[..(k + 1) * n] == pas[..k * n] + pas[k * n..(k + 1) * n];
    LandedThen(m0, m1, m2, pas[..k * n], RunBytes(values[..k], n), pas[k * n..(k + 1) * n], ToBytes(values[k], n));
  }

  /** STP and the vector stores: all pieces land, or none, or the host aborts -- exactly on a policy-refused
      misalignment. */
  method StoreRun(mmu: Mmu, addr: u64, n: nat, values: seq<u64>) returns (r: Transfer, ghost pas: seq<u64>)
    requires mmu.Valid() && TransferSize(n) && 0 < |values| && |values| * n <= LONGEST
    modifies mmu`epoch, mmu`hits, mmu`misses, mmu`flushes, mmu`fault, mmu.tlb, mmu.bus`view, mmu.bus.hosts
    ensures mmu.Valid()
    ensures
      var refusal := RunRefusal(old(mmu.State()), mmu.control, old(mmu.bus.view), addr, |values|, n,
                                Access(mmu.el, true, false), WRITE);
      && (r == Faulted <==> refusal.Some?)
      && mmu.fault == RecordAfter(r, old(mmu.fault), refusal, mmu.el, true, addr)
    ensures r != Faulted ==> (r == Aborted <==> addr % n != 0 && AlignmentRequired(mmu.control, mmu.el))
    ensures r == Committed ==>
              && |pas| == |values| * n
              && Located(old(mmu.State()), mmu.control, old(mmu.bus.view), addr, Access(mmu.el, true, false),
                         WRITE, pas)
              && Landed(old(mmu.bus.view), mmu.bus.view, pas, RunBytes(values, n))
    ensures r != Committed ==> mmu.bus.view == old(mmu.bus.view)
  {
    hide Pinned, Settled, Covered, At, Shaped, AlignmentRequired, ProbeRun, Ask, ToBytes, LegalTable, AllPinned;
    ghost var t0 := mmu.State();
    pas := [];
    var s := ValidateRun(mmu, addr, |values|, n, WRITE);
    if s != OK {
      return Faulted, pas;
    }
    pas := ProbedIsReady(t0, mmu.control, mmu.bus.view, addr, |values|, n, Access(mmu.el, true, false), WRITE);
    r := CommitRun(mmu, addr, n, values, pas);
  }

  /** What a load of the bytes at `pas` puts in a register. */
  ghost function Loaded(m: Ram, pas: seq<u64>, signExtend: bool): (v: u64)
    requires Pow256(|pas|) <= TWO64
  {
    var raw := LittleEndian(Gathered(m, pas));
    LittleEndianBound(Gathered(m, pas));
    if signExtend then SignExtend(raw, |pas|) else raw
  }

  /** LDP and the vector loads: every piece is read where it translated before the run, or nothing is delivered. */
  method LoadRun(mmu: Mmu, addr: u64, count: nat, n: nat, signExtend: bool) returns (r: Transfer, values: seq<u64>,
          ghost pas: seq<u64>)
    requires mmu.Valid() && TransferSize(n) && 0 < count && count * n <= LONGEST
    modifies mmu`epoch, mmu`hits, mmu`misses, mmu`flushes, mmu`fault, mmu.tlb
    ensures mmu.Valid()
    ensures
      var refusal := RunRefusal(old(mmu.State()), mmu.control, mmu.bus.view, addr, count, n,
                                Access(mmu.el, false, false), READ);
      && (r == Faulted <==> refusal.Some?)
      && mmu.fault == RecordAfter(r, old(mmu.fault), refusal, mmu.el, false, addr)
    ensures r != Faulted ==> (r == Aborted <==> addr % n != 0 && AlignmentRequired(mmu.control, mmu.el))
    ensures r == Committed ==>
              && |pas| == count * n && |values| == count
              && Located(old(mmu.State()), mmu.control, mmu.bus.view, addr, Access(mmu.el, false, false), READ, pas)
              && forall k :: 0 <= k < count ==> PieceLoaded(mmu.bus.view, pas, values, k, n, signExtend)
  {
    hide Pinned, Settled, Covered, At, Shaped, AlignmentRequired, ProbeRun, Ask, LegalTable, AllPinned, Refusal;
    hide LittleEndian, SignExtend, Located;
    ghost var t0, c, m, acc := mmu.State(), mmu.control, mmu.bus.view, Access(mmu.el, false, false);
    pas, values := [], [];
    var s := ValidateRun(mmu, addr, count, n, READ);
    if s != OK {
      return Faulted, values, pas;
    }
    pas := ProbedIsReady(t0, c, m, addr, count, n, acc, READ);
    TransferFits(n);
    var k := 0;
    while k < count
      invariant 0 <= k <= count && mmu.Valid() && |values| == k && mmu.bus.view == m
      invariant Ready(mmu.State(), c, m.regions, addr, count, n, acc, READ, pas)
      invariant forall i :: 0 <= i < k ==> PieceLoaded(m, pas, values, i, n, signExtend)
      invariant mmu.fault == old(mmu.fault)
      invariant k > 0 ==> !(addr % n != 0 && AlignmentRequired(c, mmu.el))
    {
      ghost var t := mmu.State();
      ReadyPiece(t, c, m, addr, count, n, acc, READ, pas, k);
      var v;
      ghost var placed;
      s, v, placed := mmu.Read(At(addr, k * n), n, signExtend);
      if s != OK {
        FirstByte(addr);
        return Aborted, values, pas;
      }
      SamePlaces(t, c, m, At(addr, k * n), acc, READ, placed, pas[k * n..(k + 1) * n]);
      ReadyAfter(t, mmu.State(), c, m.regions, addr, count, n, acc, READ, pas);
      ghost var before := values;
      values := values + [v];
      forall i | 0 <= i < k ensures PieceLoaded(m, pas, values, i, n, signExtend) {
        assert PieceLoaded(m, pas, before, i, n, signExtend);
      }
      k := k + 1;
    }
    return Committed, values, pas;
  }

  ghost predicate PieceLoaded(m: Ram, pas: seq<u64>, values: seq<u64>, k: nat, n: nat, signExtend: bool) {
    && Pow256(n) <= TWO64 && k < |values| && 0 <= k * n <= (k + 1) * n <= |pas| && (k + 1) * n - k * n == n
    && values[k] == Loaded(m, pas[k * n..(k + 1) * n], signExtend)
  }

  // ----- DC ZVA -----

  const LINE: nat := 64

  function LineOf(addr: u64): (line: u64)
    ensures line % 64 == 0 && line <= addr < line + 64 <= TWO64
  {
    addr - addr % LINE
  }

  /** What DC ZVA refuses: a misaligned address whatever the policy, then the probe of the whole line. */
  function LineRefusal(t: Tlb, c: Control, m: Ram, el: El, addr: u64): Option<FaultRecord>
    requires Shaped(t)
  {
    if addr % 8 != 0 then Misalignment(el, true, addr)
    else ProbeFrom(t, c, m, LineOf(addr), 0, LINE, Access(el, true, false), WRITE).refusal
  }

  lemma LineRefusalCases(t: Tlb, c: Control, m: Ram, el: El, addr: u64)
    requires Shaped(t)
    ensures LineRefusal(t, c, m, el, addr) ==
            if addr % 8 != 0 then Misalignment(el, true, addr)
            else ProbeFrom(t, c, m, LineOf(addr), 0, LINE, Access(el, true, false), WRITE).refusal
  {
  }

  function Zeros(n: nat): seq<u8> {
    seq(n, i => 0)
  }

  lemma {:induction false} ZeroRun(count: nat)
    ensures RunBytes(seq(count, i => 0), 8) == Zeros(8 * count)
  {
    if count > 0 {
      var values: seq<u64> := seq(count, i => 0);
      assert values[..count - 1] == seq(count - 1, i => 0);
      ZeroRun(count - 1);
      ZeroWordBytes(8);
      assert Zeros(8 * (count - 1)) + Zeros(8) == Zeros(8 * count);
    }
  }

  lemma {:induction false} ZeroWordBytes(n: nat)
    ensures ToBytes(0, n) == Zeros(n)
  {
    if n > 0 {
      ZeroWordBytes(n - 1);
    }
  }

  lemma LineInPage(line: u64)
    requires line % LINE == 0
    ensures line % PAGE + LINE <= PAGE
  {
    var q := line / LINE;
    assert line == q / 64 * PAGE + LINE * (q % 64);
    ModUnique(line, PAGE, q / 64, LINE * (q % 64));
  }

  lemma LineIsOneChunk(line: u64)
    requires line % LINE == 0
    ensures At(line, 0) == line && line % PAGE + LINE <= PAGE && ChunkAt(line, 0, LINE) == LINE
  {
    hide At;
    FirstByte(line);
    LineInPage(line);
  }

  /** One probe of an aligned line readies its eight double words. */
  lemma LineIsReady(t: Tlb, c: Control, m: Ram, line: u64, acc: Access) returns (pas: seq<u64>)
    requires Shaped(t) && line % LINE == 0 && LegalTable(m.regions)
    requires ProbeFrom(t, c, m, line, 0, LINE, acc, WRITE).refusal.None?
    ensures Ready(ProbeFrom(t, c, m, line, 0, LINE, acc, WRITE).tlb, c, m.regions, line, 8, 8, acc, WRITE, pas)
    ensures |pas| == LINE && Located(t, c, m, line, acc, WRITE, pas)
  {
    hide Ask, Pinned, Covered, At, Shaped, ProbeFrom, ChunkAt, Translate;
    var t' := ProbeFrom(t, c, m, line, 0, LINE, acc, WRITE).tlb;
    LineIsOneChunk(line);
    ProbePlaces(t, c, m, line, 0, LINE, acc, WRITE);
    ProbeOneChunk(t, c, m, line, LINE, acc, WRITE);
    AskIsAnswer(t, c, m, line, acc);
    var pa := Ask(t, c, m, line, acc).pa;
    pas := seq(LINE, j requires 0 <= j < LINE => PlacedAt(t, c, m, line, j, acc));
    forall j | 0 <= j < LINE
      ensures AskByte(t, c, m, line, j, acc) == Served(pas[j]) && Covered(m.regions, pas[j], 1, WRITE)
      ensures Pinned(t', c, At(line, j), acc, pas[j]) && pas[j] == pa + j
    {
      assert ProbedByte(t, t', c, m, line, j, acc, WRITE);
      ChunkBytes(t, c, m, line, 0, LINE, acc, WRITE, j);
    }
    forall k | 0 <= k < 8 ensures Covered(m.regions, pas[k * 8], 8, WRITE) {
      CoveredPart(m.regions, pa, LINE, WRITE, pa + 8 * k, 8);
    }
  }

  /** What a completed DC ZVA is, said of addresses alone: every byte of the 64-byte block around `addr` is 0 where it
      translated, and no other byte has changed. */
  ghost predicate Cleared(t: Tlb, c: Control, m: Ram, m': Ram, acc: Access, addr: u64)
    requires Shaped(t)
  {
    && m'.data.Keys == m.data.Keys
    && (forall v: u64 :: v / 64 == addr / 64 ==>
          var answer := Ask(t, c, m, v, acc);
          answer.Served? && answer.pa in m'.data && m'.data[answer.pa] == 0)
    && (forall x :: x in m.data && (forall v: u64 :: v / 64 == addr / 64 ==> Ask(t, c, m, v, acc) != Served(x)) ==>
          m'.data[x] == m.data[x])
  }

  lemma InBlock(addr: u64, v: u64)
    ensures v / 64 == addr / 64 <==> LineOf(addr) <= v < LineOf(addr) + 64
  {
    hide LineOf;
    var line := LineOf(addr);
    assert line == 64 * (line / 64) && addr / 64 == line / 64;
  }

  lemma LineIsCleared(t: Tlb, c: Control, m: Ram, m': Ram, acc: Access, addr: u64, pas: seq<u64>)
    requires Shaped(t) && |pas| == 64 && Located(t, c, m, LineOf(addr), acc, WRITE, pas)
    requires Landed(m, m', pas, Zeros(64))
    ensures Cleared(t, c, m, m', acc, addr)
  {
    hide Ask, Covered, Shaped, LineOf;
    var line := LineOf(addr);
    forall j | 0 <= j < 64 ensures At(line, j) == line + j && Ask(t, c, m, line + j, acc) == Served(pas[j]) {
      assert AskByte(t, c, m, line, j, acc) == Served(pas[j]);
    }
    forall v: u64 | v / 64 == addr / 64
      ensures
        var answer := Ask(t, c, m, v, acc);
        answer.Served? && answer.pa in m'.data && m'.data[answer.pa] == 0
    {
      InBlock(addr, v);
      var j := v - line;
      assert Ask(t, c, m, line + j, acc) == Served(pas[j]) && m'.data[pas[j]] == Zeros(64)[j];
    }
    forall x | x in m.data && (forall v: u64 :: v / 64 == addr / 64 ==> Ask(t, c, m, v, acc) != Served(x))
      ensures m'.data[x] == m.data[x]
    {
      forall j | 0 <= j < 64 ensures pas[j] != x {
        InBlock(addr, line + j);
        assert Ask(t, c, m, line + j, acc) == Served(pas[j]);
      }
    }
  }

  /** DC ZVA: the whole line is cleared where it translated, or nothing is; unlike the runs above it can never abort
      the host. `refusal` is the syndrome delivered. */
  method ZeroLine(mmu: Mmu, addr: u64) returns (r: Transfer, refusal: Option<FaultRecord>, ghost pas: seq<u64>)
    requires mmu.Valid()
    modifies mmu`epoch, mmu`hits, mmu`misses, mmu`flushes, mmu`fault, mmu.tlb, mmu.bus`view, mmu.bus.hosts
    ensures mmu.Valid() && r != Aborted && (r == Faulted <==> refusal.Some?)
    ensures refusal == LineRefusal(old(mmu.State()), mmu.control, old(mmu.bus.view), mmu.el, addr)
    ensures r == Committed ==>
              && |pas| == LINE
              && Located(old(mmu.State()), mmu.control, old(mmu.bus.view), LineOf(addr), Access(mmu.el, true, false),
                         WRITE, pas)
              && Landed(old(mmu.bus.view), mmu.bus.view, pas, Zeros(LINE))
              && Cleared(old(mmu.State()), mmu.control, old(mmu.bus.view), mmu.bus.view, Access(mmu.el, true, false),
                         addr)
    ensures r != Committed ==> mmu.bus.view == old(mmu.bus.view)
  {
    hide Pinned, Covered, At, Shaped, AlignmentRequired, ProbeFrom, Ask, ToBytes, LegalTable, AllPinned, Ready;
    hide RunBytes, Zeros, LineRefusal, LineOf, Located, Landed, Cleared;
    pas := [];
    LineRefusalCases(mmu.State(), mmu.control, mmu.bus.view, mmu.el, addr);
    if addr % 8 != 0 {
      return Faulted, Misalignment(mmu.el, true, addr), pas;
    }
    ghost var t0, m0 := mmu.State(), mmu.bus.view;
    var line := LineOf(addr);
    var s := mmu.Validate(line, LINE, WRITE);
    if s != OK {
      refusal := mmu.TakeFault();
      return Faulted, refusal, pas;
    }
    pas := LineIsReady(t0, mmu.control, m0, line, Access(mmu.el, true, false));
    ZeroRun(8);
    r := CommitRun(mmu, line, 8, seq(8, i => 0), pas);
    refusal := None;
    LineIsCleared(t0, mmu.control, m0, mmu.bus.view, Access(mmu.el, true, false), addr, pas);
  }

  /** The alignment policy is not part of validation: this misaligned pair validates, and its first access is then
      refused. */
  lemma ValidatedYetAborts(m: Ram, t: Tlb)
    requires m.regions == [Region(0, 64, WRITE)] && t == Boot(Control(2, 0, 0, 0, 0), m).tlb
    ensures
      var c := Control(2, 0, 0, 0, 0);
      var acc := Access(1, true, false);
      && ProbeRun(t, c, m, 1, 0, 2, 8, acc, WRITE).refusal.None?
      && Refusal(t, c, m, 1, 8, acc, WRITE) == Some(FaultRecord(Syndrome(acc, Alignment, -1), Some(1)))
  {
    hide Descend, Geometry, Verdict, Resolve, Index;
    var c, acc := Control(2, 0, 0, 0, 0), Access(1, true, false);
    assert !Enabled(c) && AlignmentRequired(c, 1);
    assert Covers(m.regions[0], 1, 8, WRITE) && Covers(m.regions[0], 9, 8, WRITE);
    var p := ProbeFrom(t, c, m, 1, 0, 8, acc, WRITE);
    assert ChunkAt(1, 0, 8) == 8 && p == Probed(Translate(t, c, m, 1, acc).tlb, None);
    var q := ProbeFrom(p.tlb, c, m, 9, 0, 8, acc, WRITE);
    assert ChunkAt(9, 0, 8) == 8 && q.refusal.None?;
    assert At(1, 0 * 8) == 1 && At(1, 1 * 8) == 9;
    assert ProbeRun(q.tlb, c, m, 1, 2, 2, 8, acc, WRITE).refusal.None?;
    assert ProbeRun(p.tlb, c, m, 1, 1, 2, 8, acc, WRITE).refusal.None?;
  }
}
