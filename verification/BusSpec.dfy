/** What a translated access means, byte by byte, in terms of the state before it. */
module BusSpec {
  import opened Words
  import opened FlatMemory
  import opened Translation
  import opened TranslationCache
  import opened Pinning

  /** The one pending fault record; a bus refusal inside a split check leaves the address unset. */
  datatype FaultRecord = FaultRecord(esr: u32, far: Option<u64>)

  /** Where byte `i` of an access at `va` translates to. */
  function AskByte(t: Tlb, c: Control, m: Ram, va: u64, i: nat, acc: Access): Answer
    requires Shaped(t)
  {
    Ask(t, c, m, At(va, i), acc)
  }

  function SplitRefusal(t: Tlb, c: Control, m: Ram, va: u64, n: nat, i: nat, acc: Access,
          need: Perms): Option<FaultRecord>
    requires Shaped(t) && i <= n
    decreases n - i
  {
    if i == n then None else
    match AskByte(t, c, m, va, i, acc)
    case Refused(esr, far) => Some(FaultRecord(esr, Some(far)))
    case Served(pa) =>
      if !Covered(m.regions, pa, 1, need) then Some(FaultRecord(Syndrome(acc, NoWalk, -1), None))
      else SplitRefusal(t, c, m, va, n, i + 1, acc, need)
  }

  /** The fault an access of `n` bytes takes, if any: mapping first, then alignment, then the physical bus. */
  function Refusal(t: Tlb, c: Control, m: Ram, va: u64, n: nat, acc: Access, need: Perms): Option<FaultRecord>
    requires Shaped(t) && n > 0
  {
    match Ask(t, c, m, va, acc)
    case Refused(esr, far) => Some(FaultRecord(esr, Some(far)))
    case Served(pa) =>
      if va % n != 0 then
        if AlignmentRequired(c, acc.el) then Some(FaultRecord(Syndrome(acc, Alignment, -1), Some(va)))
        else SplitRefusal(t, c, m, va, n, 0, acc, need)
      else if Covered(m.regions, pa, n, need) then None
      else Some(FaultRecord(Syndrome(acc, NoWalk, -1), Some(va)))
  }

  /** `pas[i]` is where byte `i` of the access translates, and the bus grants it. */
  ghost predicate Located(t: Tlb, c: Control, m: Ram, va: u64, acc: Access, need: Perms, pas: seq<u64>)
    requires Shaped(t)
  {
    forall i :: 0 <= i < |pas| ==> AskByte(t, c, m, va, i, acc) == Served(pas[i]) && Covered(m.regions, pas[i], 1, need)
  }

  /** Every byte of the access is answered from the cache alone. */
  ghost predicate AllPinned(t: Tlb, c: Control, va: u64, acc: Access, pas: seq<u64>) {
    Shaped(t) && forall i :: 0 <= i < |pas| ==> Pinned(t, c, At(va, i), acc, pas[i])
  }

  /** Memory after writing `bs[i]` at `pas[i]`: those bytes and no others. */
  ghost predicate Landed(m: Ram, m': Ram, pas: seq<u64>, bs: seq<u8>)
    requires |pas| == |bs|
  {
    && m'.regions == m.regions && m'.data.Keys == m.data.Keys
    && (forall i :: 0 <= i < |pas| ==> pas[i] in m'.data && m'.data[pas[i]] == bs[i])
    && (forall x :: x in m.data && x !in pas ==> m'.data[x] == m.data[x])
  }

  /** The bytes found at the physical addresses of an access, in order. */
  ghost function Gathered(m: Ram, pas: seq<u64>): (bs: seq<u8>)
    ensures |bs| == |pas| && forall i :: 0 <= i < |pas| ==> bs[i] == ByteAt(m.data, pas[i])
  {
    seq(|pas|, i requires 0 <= i < |pas| => ByteAt(m.data, pas[i]))
  }

  ghost predicate Distinct(pas: seq<u64>) {
    forall i, j :: 0 <= i < j < |pas| ==> pas[i] != pas[j]
  }

  /** The bytes of one access never share a physical address: each keeps its own page offset. */
  lemma PinnedDistinct(t: Tlb, c: Control, va: u64, acc: Access, pas: seq<u64>)
    requires AllPinned(t, c, va, acc, pas) && |pas| <= PAGE
    ensures Distinct(pas)
  {
    forall i, j | 0 <= i < j < |pas| ensures pas[i] != pas[j] {
      NearbyCompatible(va, i, j);
      PinnedPage(t, c, At(va, i), At(va, i), acc, pas[i]);
      PinnedPage(t, c, At(va, j), At(va, j), acc, pas[j]);
    }
  }

  /** Storing one more byte extends what has landed. */
  lemma LandOneMore(m: Ram, m1: Ram, pas: seq<u64>, bs: seq<u8>, k: nat, v: nat)
    requires WellFormed(m1) && |pas| == |bs| && k < |pas| && Distinct(pas)
    requires Landed(m, m1, pas[..k], bs[..k])
    requires Store(m1, pas[k], 1, v).Some? && v % 256 == bs[k] as int
    ensures Landed(m, Store(m1, pas[k], 1, v).value, pas[..k + 1], bs[..k + 1])
  {
    var m2 := Store(m1, pas[k], 1, v).value;
    StoreChanges(m1, pas[k], 1, v);
    assert ToBytes(v, 1)[0] == bs[k];
    forall i | 0 <= i < k + 1 ensures pas[i] in m2.data && m2.data[pas[i]] == bs[i] {
      assert i < k ==> pas[i] == pas[..k][i] && bs[i] == bs[..k][i];
    }
    forall x | x in m.data && x !in pas[..k + 1] ensures m2.data[x] == m.data[x] {
      assert pas[..k + 1] == pas[..k] + [pas[k]];
    }
  }

  /** An aligned access stays in its page, so one translation places all its bytes. */
  lemma AlignedBytes(t: Tlb, c: Control, m: Ram, va: u64, n: nat, acc: Access, need: Perms) returns (pas: seq<u64>)
    requires Shaped(t) && TransferSize(n) && va % n == 0
    requires Ask(t, c, m, va, acc).Served? && Covered(m.regions, Ask(t, c, m, va, acc).pa, n, need)
    requires LegalTable(m.regions)
    ensures |pas| == n && forall i :: 0 <= i < n ==> pas[i] == Ask(t, c, m, va, acc).pa + i
    ensures Located(t, c, m, va, acc, need, pas)
  {
    hide Ask, Covered;
    var pa := Ask(t, c, m, va, acc).pa;
    CoveredBelowTop(m.regions, pa, n, need);
    pas := seq(n, i requires 0 <= i < n => pa + i);
    forall i | 0 <= i < n
      ensures AskByte(t, c, m, va, i, acc) == Served(pas[i]) && Covered(m.regions, pas[i], 1, need)
    {
      AlignedOffset(va, n, i);
      AskSamePage(t, c, m, va, va + i, acc);
      CoveredPart(m.regions, pa, n, need, pa + i, 1);
    }
  }

  lemma CoveredBelowTop(rs: seq<Region>, a: int, n: nat, p: Perms)
    requires LegalTable(rs) && Covered(rs, a, n, p)
    ensures 0 <= a && a + n <= TWO64
  {
    var i :| 0 <= i < |rs| && Covers(rs[i], a, n, p);
  }

  lemma AlignedRoom(va: u64, n: nat)
    requires TransferSize(n) && va % n == 0
    ensures va % PAGE + n <= PAGE
  {
    var q, r := va / PAGE, va % PAGE;
    if n == 8 {
      assert r == 8 * (va / 8 - 512 * q);
    } else if n == 4 {
      assert r == 4 * (va / 4 - 1024 * q);
    } else if n == 2 {
      assert r == 2 * (va / 2 - 2048 * q);
    }
  }

  lemma AlignedOffset(va: u64, n: nat, i: nat)
    requires TransferSize(n) && va % n == 0 && i < n
    ensures va + i < TWO64 && At(va, i) == va + i
    ensures SamePage(va, va + i) && (va + i) % PAGE == va % PAGE + i
  {
    AlignedRoom(va, n);
    ModUnique(va + i, PAGE, va / PAGE, va % PAGE + i);
  }

  /** No refusal of a split access means every byte is located. */
  lemma {:induction false} SplitLocates(t: Tlb, c: Control, m: Ram, va: u64, n: nat, i: nat, acc: Access, need: Perms)
    requires Shaped(t) && i <= n
    ensures SplitRefusal(t, c, m, va, n, i, acc, need).None? <==>
            forall j :: i <= j < n ==>
              AskByte(t, c, m, va, j, acc).Served? && Covered(m.regions, AskByte(t, c, m, va, j, acc).pa, 1, need)
    decreases n - i
  {
    hide Ask, Covered;
    if i < n {
      SplitLocates(t, c, m, va, n, i + 1, acc, need);
    }
  }

  ghost predicate AllSettled(t: Tlb, c: Control, va: u64, acc: Access, n: nat) {
    Shaped(t) && forall i :: 0 <= i < n ==> Settled(t, c, At(va, i), acc)
  }

  /** Only slots and epoch matter to pinning and settling. */
  predicate SameSlots(t: Tlb, t': Tlb) {
    t'.entries == t.entries && t'.epoch == t.epoch
  }

  // ----- permission probes -----

  datatype Probed = Probed(tlb: Tlb, refusal: Option<FaultRecord>)

  function ChunkAt(va: u64, off: nat, size: nat): (k: nat)
    requires off < size
    ensures 0 < k <= size - off && At(va, off) % PAGE + k <= PAGE
  {
    var span := PAGE - At(va, off) % PAGE;
    if span <= size - off then span else size - off
  }

  /** A probe translates once per page it spans and asks the bus for the part in that page. */
  function ProbeFrom(t: Tlb, c: Control, m: Ram, va: u64, off: nat, size: nat, acc: Access, need: Perms): (r: Probed)
    requires Shaped(t) && off <= size
    ensures Shaped(r.tlb)
    decreases size - off
  {
    if off == size then Probed(t, None) else
    var a := At(va, off);
    var o := Translate(t, c, m, a, acc);
    match o.answer
    case Refused(esr, far) => Probed(o.tlb, Some(FaultRecord(esr, Some(far))))
    case Served(pa) =>
      if !Covered(m.regions, pa, ChunkAt(va, off, size), need) then
        Probed(o.tlb, Some(FaultRecord(Syndrome(acc, NoWalk, -1), Some(a))))
      else ProbeFrom(o.tlb, c, m, va, off + ChunkAt(va, off, size), size, acc, need)
  }

  /** A probe changes no answer and unpins nothing it is compatible with. */
  lemma {:induction false} ProbeStable(t: Tlb, c: Control, m: Ram, va: u64, off: nat, size: nat, acc: Access,
          need: Perms, vb: u64)
    requires Shaped(t) && off <= size
    requires forall j :: off <= j < size ==> Compatible(At(va, j), vb)
    ensures
      var t' := ProbeFrom(t, c, m, va, off, size, acc, need).tlb;
      && Ask(t', c, m, vb, acc) == Ask(t, c, m, vb, acc)
      && forall pa :: Pinned(t, c, vb, acc, pa) ==> Pinned(t', c, vb, acc, pa)
    decreases size - off
  {
    hide Ask, Pinned, Covered, Compatible, At, Shaped;
    if off < size {
      var a := At(va, off);
      var o := Translate(t, c, m, a, acc);
      AnswerStable(t, c, m, a, acc, vb);
      forall pa | Pinned(t, c, vb, acc, pa) ensures Pinned(o.tlb, c, vb, acc, pa) {
        CompatibleSymmetric(a, vb);
        PinnedSurvives(t, c, m, vb, acc, pa, a, acc);
      }
      if o.answer.Served? && Covered(m.regions, o.answer.pa, ChunkAt(va, off, size), need) {
        ProbeStable(o.tlb, c, m, va, off + ChunkAt(va, off, size), size, acc, need, vb);
      }
    }
  }

  lemma CompatibleSymmetric(va: u64, vb: u64)
    requires Compatible(va, vb)
    ensures Compatible(vb, va)
  {
  }

  /** Byte `j` was placed by the probe: answered as before it, granted by the bus, and pinned after it. */
  ghost predicate ProbedByte(t: Tlb, t': Tlb, c: Control, m: Ram, va: u64, j: nat, acc: Access, need: Perms) {
    && Shaped(t) && Shaped(t')
    && AskByte(t, c, m, va, j, acc).Served?
    && Covered(m.regions, AskByte(t, c, m, va, j, acc).pa, 1, need)
    && Pinned(t', c, At(va, j), acc, AskByte(t, c, m, va, j, acc).pa)
  }

  lemma ChunkBytes(t: Tlb, c: Control, m: Ram, va: u64, off: nat, k: nat, acc: Access, need: Perms, j: nat)
    requires Shaped(t) && At(va, off) % PAGE + k <= PAGE && off <= j < off + k
    requires Ask(t, c, m, At(va, off), acc).Served?
    requires LegalTable(m.regions) && Covered(m.regions, Ask(t, c, m, At(va, off), acc).pa, k, need)
    ensures ProbedByte(t, Translate(t, c, m, At(va, off), acc).tlb, c, m, va, j, acc, need)
    ensures AskByte(t, c, m, va, j, acc).pa == Ask(t, c, m, At(va, off), acc).pa + (j - off)
  {
    hide Ask, Pinned, Covered, Shaped;
    var a, b := At(va, off), At(va, j);
    var t' := Translate(t, c, m, a, acc).tlb;
    var pa := Ask(t, c, m, a, acc).pa;
    WrapPageOffset(va, off, j - off);
    AskSamePage(t, c, m, a, b, acc);
    ServedIsPinned(t, c, m, a, acc);
    PinnedPage(t', c, a, b, acc, pa);
    CoveredPart(m.regions, pa, k, need, pa + (j - off), 1);
  }

  /** Stepping inside a page moves only the offset, even after wrapping. */
  lemma WrapPageOffset(va: u64, off: nat, d: nat)
    requires At(va, off) % PAGE + d < PAGE
    ensures SamePage(At(va, off), At(va, off + d)) && At(va, off + d) % PAGE == At(va, off) % PAGE + d
  {
    var x, y := va + off, At(va, off);
    ModUnique(y + d, PAGE, y / PAGE, y % PAGE + d);
    ModUnique(x + d, TWO64, x / TWO64, y + d);
  }

  /** A successful probe of at most a page places every byte of its range. */
  lemma {:induction false} ProbePlaces(t: Tlb, c: Control, m: Ram, va: u64, off: nat, size: nat, acc: Access,
          need: Perms)
    requires Shaped(t) && off <= size <= PAGE && LegalTable(m.regions)
    requires ProbeFrom(t, c, m, va, off, size, acc, need).refusal.None?
    ensures forall j :: off <= j < size ==>
              ProbedByte(t, ProbeFrom(t, c, m, va, off, size, acc, need).tlb, c, m, va, j, acc, need)
    decreases size - off
  {
    hide Pinned, Covered, Compatible, At, Shaped, Ask;
    if off < size {
      var a, k := At(va, off), ChunkAt(va, off, size);
      var o := Translate(t, c, m, a, acc);
      var t' := ProbeFrom(t, c, m, va, off, size, acc, need).tlb;
      assert Ask(t, c, m, a, acc) == o.answer by {
        AskIsAnswer(t, c, m, a, acc);
      }
      ProbePlaces(o.tlb, c, m, va, off + k, size, acc, need);
      forall j | off <= j < size ensures ProbedByte(t, t', c, m, va, j, acc, need) {
        if j < off + k {
          ChunkBytes(t, c, m, va, off, k, acc, need, j);
          forall i | off + k <= i < size ensures Compatible(At(va, i), At(va, j)) {
            NearbyCompatible(va, i, j);
          }
          ProbeStable(o.tlb, c, m, va, off + k, size, acc, need, At(va, j));
        } else {
          NearbyCompatible(va, off, j);
          AnswerStable(t, c, m, a, acc, At(va, j));
          assert ProbedByte(o.tlb, t', c, m, va, j, acc, need);
        }
      }
    }
  }

  lemma AskIsAnswer(t: Tlb, c: Control, m: Ram, va: u64, acc: Access)
    requires Shaped(t)
    ensures Ask(t, c, m, va, acc) == Translate(t, c, m, va, acc).answer
  {
  }

  lemma AlignedChunk(va: u64, n: nat)
    requires TransferSize(n) && va % n == 0
    ensures At(va, 0) == va && ChunkAt(va, 0, n) == n
  {
    AlignedOffset(va, n, n - 1);
  }

  lemma ProbeOneChunk(t: Tlb, c: Control, m: Ram, va: u64, n: nat, acc: Access, need: Perms)
    requires Shaped(t) && 0 < n && At(va, 0) == va && ChunkAt(va, 0, n) == n
    requires ProbeFrom(t, c, m, va, 0, n, acc, need).refusal.None?
    ensures
      var answer := Translate(t, c, m, va, acc).answer;
      answer.Served? && Covered(m.regions, answer.pa, n, need)
  {
    hide Translate, Covered, Shaped, At, ChunkAt;
  }

  /** A probe of an aligned transfer is granted as one range. */
  lemma ProbeAligned(t: Tlb, c: Control, m: Ram, va: u64, n: nat, acc: Access, need: Perms)
    requires Shaped(t) && TransferSize(n) && va % n == 0
    requires ProbeFrom(t, c, m, va, 0, n, acc, need).refusal.None?
    ensures Ask(t, c, m, va, acc).Served? && Covered(m.regions, Ask(t, c, m, va, acc).pa, n, need)
  {
    hide Ask, Covered, Shaped, ProbeFrom, Translate, At, ChunkAt;
    AskIsAnswer(t, c, m, va, acc);
    AlignedChunk(va, n);
    ProbeOneChunk(t, c, m, va, n, acc, need);
  }

  // ----- composing stores -----

  lemma LandedThen(m: Ram, m1: Ram, m2: Ram, pas: seq<u64>, bs: seq<u8>, more: seq<u64>, bs': seq<u8>)
    requires |pas| == |bs| && |more| == |bs'|
    requires Landed(m, m1, pas, bs) && Landed(m1, m2, more, bs')
    requires forall i, j :: 0 <= i < |pas| && 0 <= j < |more| ==> pas[i] != more[j]
    ensures Landed(m, m2, pas + more, bs + bs')
  {
    var all, bytes := pas + more, bs + bs';
    forall i | 0 <= i < |all| ensures all[i] in m2.data && m2.data[all[i]] == bytes[i] {
      if i < |pas| {
        assert pas[i] !in more;
      }
    }
    forall x | x in m.data && x !in all ensures m2.data[x] == m.data[x] {
      assert x !in pas && x !in more;
    }
  }
}
