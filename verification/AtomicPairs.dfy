/** Exclusive pairs beyond one thread and one mapping: the reservation compares virtual addresses, and exception entry,
    return and CLREX leave it standing, so what a pair is worth is a matter of where every access landed. */
module AtomicPairs {
  import opened Words
  import opened FlatMemory
  import opened BusSpec
  import opened PairAccess
  import opened ExclusiveMonitor
  import opened RegisterFile
  import opened TranslatedTransfer

  /** A completed access and the physical places of its bytes, under whatever tables were then in force. */
  datatype Placing = Placing(access: BusAccess, places: seq<u64>)

  predicate Formed(s: Placing) {
    WellSized(s.access) && |s.places| == RunLength(s.access) * s.access.n
  }

  /** Does the access, met in this state of the monitor, change memory? */
  predicate Writes(mon: Monitor, s: Placing) {
    IsWrite(s.access) && Moves(s.access, mon)
  }

  /** `data` with the bytes `bs` put at `places`, in order. */
  function PutEach(data: map<int, u8>, places: seq<u64>, bs: seq<u8>): (d: map<int, u8>)
    requires |places| == |bs|
    ensures d.Keys == data.Keys
  {
    if places == [] then data else
    var last := |places| - 1;
    var before := PutEach(data, places[..last], bs[..last]);
    if places[last] in before then before[places[last] := bs[last]] else before
  }

  /** The bytes an access stores. */
  function StoredBytes(s: Placing): (bs: seq<u8>)
    requires Formed(s) && IsWrite(s.access)
    ensures |bs| == |s.places|
  {
    RunBytes(StoredValues(s.access), s.access.n)
  }

  function Next(w: World, s: Placing): World
    requires Formed(s)
  {
    World(MonitorAfter(w.monitor, s.access),
          if Writes(w.monitor, s) then w.ram.(data := PutEach(w.ram.data, s.places, StoredBytes(s))) else w.ram)
  }

  lemma {:induction false} PutEachAt(data: map<int, u8>, places: seq<u64>, bs: seq<u8>, x: int)
    requires |places| == |bs| && x in data
    ensures x !in places ==> PutEach(data, places, bs)[x] == data[x]
    ensures x in places ==> exists i :: 0 <= i < |places| && places[i] == x && PutEach(data, places, bs)[x] == bs[i]
  {
    if places != [] {
      var last := |places| - 1;
      PutEachAt(data, places[..last], bs[..last], x);
      if places[last] != x && x in places {
        var before := PutEach(data, places[..last], bs[..last]);
        var i :| 0 <= i < last && places[..last][i] == x && before[x] == bs[..last][i];
        assert places[i] == x && bs[i] == bs[..last][i];
      }
    }
  }

  /** What an executed instruction leaves of memory and monitor is one step of this model, at the places it translated
      to. */
  lemma ExecuteIsStep(m: Ram, m': Ram, r: Regs, r': Regs, insn: Insn, mon: Monitor, mon': Monitor, pas: seq<u64>,
          places: seq<u64>)
    requires IsMemory(insn.op) && WellFormedInsn(insn) && Formed(Placing(AccessOf(r, insn), places))
    requires Completed(m, m', r, r', insn, mon, mon', pas)
    requires Moves(AccessOf(r, insn), mon) ==> places == pas
    ensures Next(World(mon, m), Placing(AccessOf(r, insn), places)) == World(mon', m')
  {
    hide AccessOf, RegistersMoved, RunBytes, PutEach, WellFormedInsn, Moves, MonitorAfter;
    var s := Placing(AccessOf(r, insn), places);
    if Writes(mon, s) {
      LandedIsPut(m, m', pas, StoredBytes(s));
    }
  }

  lemma LandedIsPut(m: Ram, m': Ram, pas: seq<u64>, bs: seq<u8>)
    requires |pas| == |bs| && Landed(m, m', pas, bs)
    ensures m' == m.(data := PutEach(m.data, pas, bs))
  {
    hide PutEach;
    forall x | x in m.data ensures m'.data[x] == PutEach(m.data, pas, bs)[x] {
      PutEachAt(m.data, pas, bs, x);
    }
    assert m'.data == PutEach(m.data, pas, bs);
  }

  predicate AllFormed(steps: seq<Placing>) {
    forall k :: 0 <= k < |steps| ==> Formed(steps[k])
  }

  function Ran(w: World, steps: seq<Placing>): (r: World)
    requires AllFormed(steps)
    ensures r.ram.data.Keys == w.ram.data.Keys
  {
    if steps == [] then w else Next(Ran(w, steps[..|steps| - 1]), steps[|steps| - 1])
  }

  lemma RanOneMore(w: World, steps: seq<Placing>, k: nat)
    requires AllFormed(steps) && k < |steps|
    ensures Ran(w, steps[..k + 1]) == Next(Ran(w, steps[..k]), steps[k])
  {
    assert steps[..k + 1][..k] == steps[..k];
  }

  /** Some byte of the access lands on one of `places`. */
  predicate Meets(s: Placing, places: seq<u64>) {
    exists i :: 0 <= i < |s.places| && s.places[i] in places
  }

  /** No effective write of steps `i` to `j` lands on one of `places`. */
  predicate Untouched(w: World, steps: seq<Placing>, i: nat, j: nat, places: seq<u64>)
    requires AllFormed(steps) && j <= |steps|
  {
    forall k :: i <= k < j && Writes(Ran(w, steps[..k]).monitor, steps[k]) ==> !Meets(steps[k], places)
  }

  /** The bytes at `places` as memory holds them before step `k`. */
  ghost function HeldAt(w: World, steps: seq<Placing>, k: nat, places: seq<u64>): seq<u8>
    requires AllFormed(steps) && k <= |steps|
  {
    Gathered(Ran(w, steps[..k]).ram, places)
  }

  lemma SparedByStep(w: World, s: Placing, places: seq<u64>)
    requires Formed(s) && (Writes(w.monitor, s) ==> !Meets(s, places))
    ensures Gathered(Next(w, s).ram, places) == Gathered(w.ram, places)
  {
    hide PutEach, Writes, StoredBytes, MonitorAfter;
    if Writes(w.monitor, s) {
      assert IsWrite(s.access) by { WritesAreWrites(w.monitor, s); }
      forall i | 0 <= i < |places| ensures ByteAt(Next(w, s).ram.data, places[i]) == ByteAt(w.ram.data, places[i]) {
        if places[i] in w.ram.data {
          PutEachAt(w.ram.data, s.places, StoredBytes(s), places[i]);
        }
      }
    }
  }

  lemma WritesAreWrites(mon: Monitor, s: Placing)
    requires Writes(mon, s)
    ensures IsWrite(s.access)
  {
  }

  lemma {:induction false} UntouchedStands(w: World, steps: seq<Placing>, i: nat, j: nat, places: seq<u64>)
    requires AllFormed(steps) && i <= j <= |steps| && Untouched(w, steps, i, j, places)
    ensures HeldAt(w, steps, j, places) == HeldAt(w, steps, i, places)
    decreases j
  {
    hide Ran, Next, Writes, Meets, Gathered;
    if i < j {
      UntouchedStands(w, steps, i, j - 1, places);
      RanOneMore(w, steps, j - 1);
      SparedByStep(Ran(w, steps[..j - 1]), steps[j - 1], places);
    }
  }

  /** The same run up to the values it stores. */
  predicate SameRun(steps: seq<Placing>, others: seq<Placing>) {
    && |steps| == |others|
    && forall k :: 0 <= k < |steps| ==> SamePlacing(steps[k], others[k])
  }

  predicate SamePlacing(s: Placing, o: Placing) {
    SameShape(s.access, o.access) && s.places == o.places
  }

  lemma SamePlacingStep(mon: Monitor, s: Placing, o: Placing)
    requires Formed(s) && SamePlacing(s, o)
    ensures Formed(o) && (Writes(mon, s) <==> Writes(mon, o))
    ensures MonitorAfter(mon, s.access) == MonitorAfter(mon, o.access)
  {
  }

  /** What becomes of the reservation does not depend on the values stored. */
  lemma {:induction false} SameRunMonitor(w: World, steps: seq<Placing>, others: seq<Placing>, k: nat)
    requires AllFormed(steps) && AllFormed(others) && SameRun(steps, others) && k <= |steps|
    ensures Ran(w, steps[..k]).monitor == Ran(w, others[..k]).monitor
  {
    hide Formed, Writes, PutEach, StoredBytes, MonitorAfter, SamePlacing;
    if k > 0 {
      SameRunMonitor(w, steps, others, k - 1);
      RanOneMore(w, steps, k - 1);
      RanOneMore(w, others, k - 1);
      SamePlacingStep(Ran(w, steps[..k - 1]).monitor, steps[k - 1], others[k - 1]);
    }
  }

  lemma SameRunUntouched(w: World, steps: seq<Placing>, others: seq<Placing>, i: nat, j: nat, places: seq<u64>)
    requires AllFormed(steps) && AllFormed(others) && SameRun(steps, others) && j <= |steps|
    requires Untouched(w, steps, i, j, places)
    ensures Untouched(w, others, i, j, places)
  {
    hide Ran, Writes, MonitorAfter;
    forall k | i <= k < j && Writes(Ran(w, others[..k]).monitor, others[k]) ensures !Meets(others[k], places) {
      SameRunMonitor(w, steps, others, k);
      assert SamePlacing(steps[k], others[k]);
      SamePlacingStep(Ran(w, steps[..k]).monitor, steps[k], others[k]);
    }
  }

  /** The bytes at `places` come through steps `i` to `j` whatever values the run stores. */
  ghost predicate AlwaysStands(w: World, steps: seq<Placing>, i: nat, j: nat, places: seq<u64>)
    requires AllFormed(steps) && i <= j <= |steps|
  {
    forall others :: SameRun(steps, others) && AllFormed(others) ==>
      HeldAt(w, others, j, places) == HeldAt(w, others, i, places)
  }

  /** They do if and only if no effective write on the way lands on one of them: for any accesses in any order, of any
      number of threads, under any translation. */
  lemma StandsExactly(w: World, steps: seq<Placing>, i: nat, j: nat, places: seq<u64>)
    requires AllFormed(steps) && i <= j <= |steps| && forall p :: p in places ==> p in w.ram.data
    ensures AlwaysStands(w, steps, i, j, places) <==> Untouched(w, steps, i, j, places)
  {
    hide Ran, Writes, Meets, HeldAt;
    if Untouched(w, steps, i, j, places) {
      forall others: seq<Placing> | SameRun(steps, others) && AllFormed(others)
        ensures HeldAt(w, others, j, places) == HeldAt(w, others, i, places)
      {
        SameRunUntouched(w, steps, others, i, j, places);
        UntouchedStands(w, others, i, j, places);
      }
    } else {
      var k := LastTouch(w, steps, i, j, places);
      StepWrites(w, steps, k);
      var zeros, ones := Filling(steps, k, 0), Filling(steps, k, TWO64 - 1);
      Refilled(w, steps, i, j, k, places);
    }
  }

  lemma StepWrites(w: World, steps: seq<Placing>, k: nat)
    requires AllFormed(steps) && k < |steps| && Writes(Ran(w, steps[..k]).monitor, steps[k])
    ensures IsWrite(steps[k].access)
  {
    WritesAreWrites(Ran(w, steps[..k]).monitor, steps[k]);
  }

  lemma {:induction false} LastTouch(w: World, steps: seq<Placing>, i: nat, j: nat, places: seq<u64>) returns (k: nat)
    requires AllFormed(steps) && j <= |steps| && !Untouched(w, steps, i, j, places)
    ensures i <= k < j && Writes(Ran(w, steps[..k]).monitor, steps[k]) && Meets(steps[k], places)
    ensures Untouched(w, steps, k + 1, j, places)
    decreases j
  {
    hide Ran, Writes, Meets;
    if Writes(Ran(w, steps[..j - 1]).monitor, steps[j - 1]) && Meets(steps[j - 1], places) {
      k := j - 1;
    } else {
      k := LastTouch(w, steps, i, j - 1, places);
    }
  }

  function Filled(a: BusAccess, v: u64): (r: BusAccess)
    requires IsWrite(a)
    ensures SameShape(a, r) && IsWrite(r) && StoredValues(r) == Repeated(v, |StoredValues(a)|)
  {
    match a
    case Stores(_, _, values, _) => a.(values := Repeated(v, |values|))
    case StoreExclusive(_, _, _) =>
      assert Repeated(v, 1) == [v];
      a.(value := v)
  }

  /** The run with step `k` storing the word `v` throughout. */
  function Filling(steps: seq<Placing>, k: nat, v: u64): (others: seq<Placing>)
    requires AllFormed(steps) && k < |steps| && IsWrite(steps[k].access)
    ensures SameRun(steps, others) && AllFormed(others)
  {
    var o := steps[k].(access := Filled(steps[k].access, v));
    SamePlacingStep(Monitor(0, 0, false), steps[k], o);
    steps[k := o]
  }

  lemma FillingPrefix(steps: seq<Placing>, k: nat, v: u64, i: nat)
    requires AllFormed(steps) && i <= k < |steps| && IsWrite(steps[k].access)
    ensures |Filling(steps, k, v)| == |steps| && Filling(steps, k, v)[..i] == steps[..i]
    ensures Filling(steps, k, v)[k] == steps[k].(access := Filled(steps[k].access, v))
  {
    hide Formed, Filled, SameRun;
  }

  /** A run of one uniform word is that byte throughout. */
  lemma {:induction false} UniformBytes(v: u64, count: nat, n: nat, b: u8)
    requires Uniform(v, n, b)
    ensures forall i :: 0 <= i < |RunBytes(Repeated(v, count), n)| ==> RunBytes(Repeated(v, count), n)[i] == b
  {
    hide ToBytes;
    if count > 0 {
      assert Repeated(v, count)[..count - 1] == Repeated(v, count - 1);
      UniformBytes(v, count - 1, n, b);
      var last := ToBytes(v, n);
      assert forall i :: 0 <= i < n ==> last[i] == b;
    }
  }

  /** After step `k` stored uniform words, every place it wrote holds their byte. */
  lemma FilledPlace(w: World, s: Placing, v: u64, b: u8, p: u64)
    requires Formed(s) && Writes(w.monitor, s) && Formed(s.(access := Filled(s.access, v)))
    requires Uniform(v, s.access.n, b) && p in s.places && p in w.ram.data
    ensures ByteAt(Next(w, s.(access := Filled(s.access, v))).ram.data, p) == b
  {
    hide PutEach, Uniform, RunBytes, Repeated, MonitorAfter;
    var o := s.(access := Filled(s.access, v));
    SamePlacingStep(w.monitor, s, o);
    UniformBytes(v, |StoredValues(s.access)|, s.access.n, b);
    PutEachAt(w.ram.data, o.places, StoredBytes(o), p);
  }

  /** Zeros and ones at the last touch: the same bytes before step `i`, different ones before step `j`. */
  lemma Refilled(w: World, steps: seq<Placing>, i: nat, j: nat, k: nat, places: seq<u64>)
    requires AllFormed(steps) && i <= k < j <= |steps| && (forall p :: p in places ==> p in w.ram.data)
    requires Writes(Ran(w, steps[..k]).monitor, steps[k]) && Meets(steps[k], places) && IsWrite(steps[k].access)
    requires Untouched(w, steps, k + 1, j, places)
    ensures
      var zeros, ones := Filling(steps, k, 0), Filling(steps, k, TWO64 - 1);
      && HeldAt(w, zeros, i, places) == HeldAt(w, ones, i, places)
      && HeldAt(w, zeros, j, places) != HeldAt(w, ones, j, places)
  {
    hide Ran, Writes, Uniform, Filled, Next;
    var n := steps[k].access.n;
    SizedWord(steps[k]);
    ZeroWord(n);
    OnesWord(n);
    var at :| 0 <= at < |steps[k].places| && steps[k].places[at] in places;
    var q :| 0 <= q < |places| && places[q] == steps[k].places[at];
    FillingHolds(w, steps, i, j, k, places, 0, 0, q);
    FillingHolds(w, steps, i, j, k, places, TWO64 - 1, 255, q);
  }

  lemma SizedWord(s: Placing)
    requires Formed(s)
    ensures s.access.n <= 8
  {
  }

  lemma HeldByte(w: World, steps: seq<Placing>, k: nat, places: seq<u64>, q: nat)
    requires AllFormed(steps) && k <= |steps| && q < |places|
    ensures |HeldAt(w, steps, k, places)| == |places|
    ensures HeldAt(w, steps, k, places)[q] == ByteAt(Ran(w, steps[..k]).ram.data, places[q])
  {
    hide Ran, Formed;
  }

  lemma SamePrefixHeld(w: World, steps: seq<Placing>, others: seq<Placing>, i: nat, places: seq<u64>)
    requires AllFormed(steps) && AllFormed(others) && i <= |steps| && i <= |others| && steps[..i] == others[..i]
    ensures HeldAt(w, steps, i, places) == HeldAt(w, others, i, places)
  {
    hide Ran, Formed, Gathered;
  }

  lemma FillingWrites(w: World, steps: seq<Placing>, k: nat, v: u64, b: u8, p: u64)
    requires AllFormed(steps) && k < |steps| && IsWrite(steps[k].access) && p in steps[k].places && p in w.ram.data
    requires Writes(Ran(w, steps[..k]).monitor, steps[k]) && Uniform(v, steps[k].access.n, b)
    ensures k < |Filling(steps, k, v)| && ByteAt(Ran(w, Filling(steps, k, v)[..k + 1]).ram.data, p) == b
  {
    hide Ran, Writes, Uniform, Filled, Next, Filling, Formed, SameRun;
    var others := Filling(steps, k, v);
    FillingPrefix(steps, k, v, k);
    RanOneMore(w, others, k);
    assert Formed(others[k]);
    FilledPlace(Ran(w, steps[..k]), steps[k], v, b, p);
  }

  lemma FillingHolds(w: World, steps: seq<Placing>, i: nat, j: nat, k: nat, places: seq<u64>, v: u64, b: u8, q: nat)
    requires AllFormed(steps) && i <= k < j <= |steps| && q < |places| && places[q] in w.ram.data
    requires Writes(Ran(w, steps[..k]).monitor, steps[k]) && IsWrite(steps[k].access) && places[q] in steps[k].places
    requires Untouched(w, steps, k + 1, j, places) && Uniform(v, steps[k].access.n, b)
    ensures HeldAt(w, Filling(steps, k, v), i, places) == HeldAt(w, steps, i, places)
    ensures HeldAt(w, Filling(steps, k, v), j, places)[q] == b
  {
    hide Ran, Writes, Uniform, Filled, Filling, Untouched, AllFormed, SameRun, HeldAt;
    var others := Filling(steps, k, v);
    FillingPrefix(steps, k, v, i);
    SamePrefixHeld(w, steps, others, i, places);
    SameRunUntouched(w, steps, others, k + 1, j, places);
    UntouchedStands(w, others, k + 1, j, places);
    HeldByte(w, others, k + 1, places, q);
    FillingWrites(w, steps, k, v, b, places[q]);
  }

  // ----- what the reservation is worth -----

  /** Step `i` loads exclusively and step `j` is an exclusive store that succeeds, with anything in between: other
      threads' pairs among it. */
  predicate Pairs(w: World, steps: seq<Placing>, i: nat, j: nat)
    requires AllFormed(steps)
  {
    && i < j < |steps| && steps[i].access.LoadExclusive? && steps[j].access.StoreExclusive?
    && Reserved(Ran(w, steps[..j]).monitor, steps[j].access.addr, steps[j].access.n)
  }

  /** The success of a pair vouches for the loaded bytes, for all values stored meanwhile, if and only if no effective
      write between its halves landed on one of them. */
  lemma PairIsSoundExactly(w: World, steps: seq<Placing>, i: nat, j: nat)
    requires AllFormed(steps) && Pairs(w, steps, i, j) && forall p :: p in steps[i].places ==> p in w.ram.data
    ensures AlwaysStands(w, steps, i, j, steps[i].places) <==> Untouched(w, steps, i + 1, j, steps[i].places)
  {
    hide Ran, Meets, AlwaysStands;
    StandsExactly(w, steps, i, j, steps[i].places);
    assert !Writes(Ran(w, steps[..i]).monitor, steps[i]);
  }

  /** Two accesses that meet in memory meet in their virtual ranges: no byte is reached under two addresses. */
  predicate Honest(s: Placing, t: Placing) {
    Meets(s, t.places) ==>
      s.access.addr < t.access.addr + |t.places| && t.access.addr < s.access.addr + |s.places|
  }

  /** A store the monitor is told of, whose range does not wrap past 2^64. */
  predicate Announced(s: Placing) {
    s.access.Stores? ==> s.access.noted && s.access.addr + |s.places| <= TWO64
  }

  lemma ReservationStays(mon: Monitor, s: Placing)
    requires Formed(s) && !s.access.LoadExclusive? && MonitorAfter(mon, s.access).valid
    ensures MonitorAfter(mon, s.access) == mon && !s.access.StoreExclusive?
  {
  }

  lemma {:induction false} ReservationSince(w: World, steps: seq<Placing>, i: nat, j: nat)
    requires AllFormed(steps) && i <= j <= |steps| && Ran(w, steps[..j]).monitor.valid
    requires forall k :: i <= k < j ==> !steps[k].access.LoadExclusive?
    ensures forall k :: i <= k < j ==>
              !steps[k].access.StoreExclusive? && Ran(w, steps[..k]).monitor == Ran(w, steps[..j]).monitor
    decreases j
  {
    hide Formed, Writes, PutEach, StoredBytes, MonitorAfter;
    if i < j {
      RanOneMore(w, steps, j - 1);
      ReservationStays(Ran(w, steps[..j - 1]).monitor, steps[j - 1]);
      ReservationSince(w, steps, i, j - 1);
    }
  }

  /** The case the monitor is made for: no other exclusive load in between, announced stores, and no second address for
      a byte. Then a pair that succeeds is sound. */
  lemma UndisturbedPairIsSound(w: World, steps: seq<Placing>, i: nat, j: nat)
    requires AllFormed(steps) && Pairs(w, steps, i, j) && forall p :: p in steps[i].places ==> p in w.ram.data
    requires forall k :: i < k < j ==>
               !steps[k].access.LoadExclusive? && Announced(steps[k]) && Honest(steps[k], steps[i])
    ensures AlwaysStands(w, steps, i, j, steps[i].places)
    ensures steps[j].access.addr == steps[i].access.addr && steps[j].access.n == steps[i].access.n
  {
    hide Ran, Meets, AlwaysStands, Writes;
    RanOneMore(w, steps, i);
    ReservationSince(w, steps, i + 1, j);
    LoadReserves(Ran(w, steps[..i]), steps[i]);
    forall k | i < k < j && Writes(Ran(w, steps[..k]).monitor, steps[k]) ensures !Meets(steps[k], steps[i].places) {
      RanOneMore(w, steps, k);
      NoticedIfMeets(Ran(w, steps[..k]), steps[k], steps[i]);
    }
    PairIsSoundExactly(w, steps, i, j);
  }

  lemma LoadReserves(w: World, s: Placing)
    requires Formed(s) && s.access.LoadExclusive?
    ensures Next(w, s).monitor == Monitor(s.access.addr, s.access.n, true) && |s.places| == s.access.n
  {
  }

  lemma NoticedIfMeets(w: World, s: Placing, l: Placing)
    requires Formed(s) && Formed(l) && l.access.LoadExclusive? && Writes(w.monitor, s) && !s.access.StoreExclusive?
    requires w.monitor == Monitor(l.access.addr, l.access.n, true) && Next(w, s).monitor == w.monitor
    requires Announced(s) && Honest(s, l)
    ensures !Meets(s, l.places)
  {
    hide PutEach, StoredBytes, Meets;
    assert |l.places| == l.access.n;
    assert |s.places| == s.access.n * |s.access.values|;
  }

  // ----- the two ways a second party defeats it -----

  const BYTE := LoadExclusive(0, 1)

  /** Memory byte 0 after a byte was stored there. */
  lemma StoredByte(w: World, s: Placing, v: u8)
    requires Formed(s) && Writes(w.monitor, s) && s.places == [0] && 0 in w.ram.data
    requires StoredValues(s.access) == [v as u64] && s.access.n == 1
    ensures Next(w, s).ram.data[0] == v
  {
    OneByte(v);
    assert s.places[..0] == [] && [v as u64][..0] == [];
  }

  lemma OneByte(v: u8)
    ensures ToBytes(v as nat, 1) == [v] && RunBytes([v as u64], 1) == [v]
  {
    assert ToBytes(v as nat, 1) == [v];
    assert [v as u64][..0] == [];
    assert RunBytes([v as u64][..0], 1) == [];
  }

  /** A context switch between the halves of a pair: the other thread's own pair succeeds, its next exclusive load
      re-arms the reservation, and the first thread's store goes through over the other's update. */
  lemma RearmedPairLosesUpdate(ram: Ram)
    requires 0 in ram.data && ram.data[0] == 0
    ensures
      var load, store := Placing(BYTE, [0]), Placing(StoreExclusive(0, 1, 1), [0]);
      var steps, w := [load, load, store, load, store], World(Monitor(0, 0, false), ram);
      && AllFormed(steps) && Pairs(w, steps, 0, 4)
      && HeldAt(w, steps, 0, [0]) == [0] && HeldAt(w, steps, 4, [0]) == [1]
  {
    hide PutEach, StoredBytes;
    var load, store := Placing(BYTE, [0]), Placing(StoreExclusive(0, 1, 1), [0]);
    var steps, w := [load, load, store, load, store], World(Monitor(0, 0, false), ram);
    assert steps[..0] == [];
    RanOneMore(w, steps, 0);
    RanOneMore(w, steps, 1);
    RanOneMore(w, steps, 2);
    StoredByte(Ran(w, steps[..2]), store, 1);
    RanOneMore(w, steps, 3);
  }

  /** One page under two addresses: an announced store through the other mapping meets the loaded byte and not the
      reserved range. */
  lemma AliasedStoreIsLost(ram: Ram)
    requires 0 in ram.data && ram.data[0] == 0
    ensures
      var steps := [Placing(BYTE, [0]), Placing(Stores(0x1000, 1, [1], true), [0]),
                    Placing(StoreExclusive(0, 1, 2), [0])];
      var w := World(Monitor(0, 0, false), ram);
      && AllFormed(steps) && Pairs(w, steps, 0, 2) && Announced(steps[1])
      && HeldAt(w, steps, 0, [0]) == [0] && HeldAt(w, steps, 2, [0]) == [1]
  {
    hide PutEach, StoredBytes;
    var other := Placing(Stores(0x1000, 1, [1], true), [0]);
    var steps := [Placing(BYTE, [0]), other, Placing(StoreExclusive(0, 1, 2), [0])];
    var w := World(Monitor(0, 0, false), ram);
    assert steps[..0] == [];
    RanOneMore(w, steps, 0);
    RanOneMore(w, steps, 1);
    StoredByte(Ran(w, steps[..1]), other, 1);
  }
}
