/** Memory accesses as the executor commits them: validated runs of pieces, and the exclusive monitor beside them. */
module ExclusiveMonitor {
  import opened Words
  import opened FlatMemory

  datatype Monitor = Monitor(addr: u64, size: u64, valid: bool)

  /** Address of piece `k` of a run, with the wrap of 64-bit addition. */
  function Piece(addr: u64, k: nat, n: nat): u64 {
    At(addr, k * n)
  }

  predicate AllGranted(rs: seq<Region>, addr: u64, n: nat, count: nat, p: Perms) {
    forall k {:trigger Piece(addr, k, n)} :: 0 <= k < count ==> Covered(rs, Piece(addr, k, n), n, p)
  }

  /** The stores of a run, in order. */
  function StoreAll(m: Ram, addr: u64, n: nat, values: seq<u64>): (r: Ram)
    ensures r.regions == m.regions
  {
    if values == [] then m else
    var last := |values| - 1;
    var before := StoreAll(m, addr, n, values[..last]);
    before.(data := Put(before.data, Piece(addr, last, n), ToBytes(values[last], n)))
  }

  /** What a general store of `nbytes` at `addr` does to the reservation. */
  function Noted(mon: Monitor, addr: u64, nbytes: nat): Monitor {
    if mon.valid && (if mon.addr <= addr then addr - mon.addr < mon.size else mon.addr - addr < nbytes)
    then mon.(valid := false) else mon
  }

  /** One access with its operands resolved. `noted` is false for the forms that never tell the monitor. */
  datatype BusAccess =
    | Loads(addr: u64, n: nat, count: nat)
    | Stores(addr: u64, n: nat, values: seq<u64>, noted: bool)
    | LoadExclusive(addr: u64, n: nat)
    | StoreExclusive(addr: u64, n: nat, value: u64)

  datatype World = World(monitor: Monitor, ram: Ram)

  /** OK or FAULT, and for an exclusive store whether it took effect. */
  datatype Verdict = Verdict(status: Status, stored: bool)

  function Reserved(mon: Monitor, addr: u64, n: nat): bool {
    mon.valid && mon.addr == addr && mon.size == n
  }

  predicate WellSized(a: BusAccess) {
    match a
    case Loads(_, n, count) => TransferSize(n) && 0 < count
    case Stores(_, n, values, _) => TransferSize(n) && 0 < |values|
    case LoadExclusive(_, n) => TransferSize(n)
    case StoreExclusive(_, n, _) => TransferSize(n)
  }

  /** The reservation after an access that was granted. */
  function MonitorAfter(mon: Monitor, a: BusAccess): Monitor
    requires WellSized(a)
  {
    match a
    case Loads(_, _, _) => mon
    case Stores(addr, n, values, noted) => if noted then Noted(mon, addr, n * |values|) else mon
    case LoadExclusive(addr, n) => Monitor(addr, n, true)
    case StoreExclusive(_, _, _) => mon.(valid := false)
  }

  function Perform(w: World, a: BusAccess): (World, Verdict)
    requires WellSized(a)
  {
    var rs, mon := w.ram.regions, MonitorAfter(w.monitor, a);
    match a
    case Loads(addr, n, count) => (w, Verdict(if AllGranted(rs, addr, n, count, READ) then OK else FAULT, false))
    case Stores(addr, n, values, _) =>
      if !AllGranted(rs, addr, n, |values|, WRITE) then (w, Verdict(FAULT, false))
      else (World(mon, StoreAll(w.ram, addr, n, values)), Verdict(OK, true))
    case LoadExclusive(addr, n) =>
      if !Covered(rs, addr, n, READ) then (w, Verdict(FAULT, false))
      else (w.(monitor := mon), Verdict(OK, false))
    case StoreExclusive(addr, n, value) =>
      if !Covered(rs, addr, n, WRITE) then (w, Verdict(FAULT, false))
      else if Reserved(w.monitor, addr, n) then
        (World(mon, w.ram.(data := Put(w.ram.data, addr, ToBytes(value, n)))), Verdict(OK, true))
      else (w.(monitor := mon), Verdict(OK, false))
  }

  /** The bytes the reservation covers. */
  function Watched(w: World): seq<u8> {
    Bytes(w.ram.data, w.monitor.addr, w.monitor.size)
  }

  /** Does piece `k` of a run lie clear of [a, a+size)? */
  predicate PieceApart(addr: u64, k: nat, n: nat, a: int, size: nat) {
    Piece(addr, k, n) + n <= a || a + size <= Piece(addr, k, n)
  }

  predicate RunApart(addr: u64, n: nat, count: nat, a: int, size: nat) {
    forall k :: 0 <= k < count ==> PieceApart(addr, k, n, a, size)
  }

  /** A store that leaves the reservation standing keeps clear of its range. */
  predicate Clear(w: World, a: BusAccess)
    requires WellSized(a)
  {
    a.Stores? && Perform(w, a).1.status == OK && Perform(w, a).0.monitor.valid ==>
      RunApart(a.addr, a.n, |a.values|, w.monitor.addr, w.monitor.size)
  }

  lemma PieceInside(addr: u64, k: nat, n: nat, count: nat)
    requires k < count && addr + n * count <= TWO64 && n > 0
    ensures Piece(addr, k, n) == addr + k * n
    ensures addr <= Piece(addr, k, n) && Piece(addr, k, n) + n <= addr + n * count
  {
    MulAway(count - k, n);
    assert n * count - k * n == (count - k) * n;
    assert k * n >= 0;
  }

  /** The stores the monitor is told of are clear, as long as their range does not run past the end of the address
      space. */
  lemma NotedIsClear(w: World, a: BusAccess)
    requires WellSized(a) && a.Stores? && a.noted && a.addr + a.n * |a.values| <= TWO64
    ensures Clear(w, a)
  {
    hide StoreAll, AllGranted;
    if Perform(w, a).1.status == OK && Perform(w, a).0.monitor.valid {
      forall k | 0 <= k < |a.values| ensures PieceApart(a.addr, k, a.n, w.monitor.addr, w.monitor.size) {
        PieceInside(a.addr, k, a.n, |a.values|);
      }
    }
  }

  /** A run of stores changes no byte its pieces do not meet. */
  lemma {:induction false} StoresStayInside(m: Ram, addr: u64, n: nat, values: seq<u64>, a: int, size: nat)
    requires RunApart(addr, n, |values|, a, size)
    ensures Bytes(StoreAll(m, addr, n, values).data, a, size) == Bytes(m.data, a, size)
  {
    hide ToBytes, Piece;
    if values != [] {
      var last := |values| - 1;
      assert PieceApart(addr, last, n, a, size);
      StoresStayInside(m, addr, n, values[..last], a, size);
      PutOutside(StoreAll(m, addr, n, values[..last]).data, Piece(addr, last, n), ToBytes(values[last], n), a, size);
    }
  }

  lemma PutOutside(data: map<int, u8>, at: int, bs: seq<u8>, a: int, size: nat)
    requires at + |bs| <= a || a + size <= at
    ensures Bytes(Put(data, at, bs), a, size) == Bytes(data, a, size)
  {
    forall k | 0 <= k < size ensures Bytes(Put(data, at, bs), a, size)[k] == Bytes(data, a, size)[k] {
    }
  }

  /** A reservation that survives a step is the one before it, and a clear step leaves its bytes unchanged. */
  lemma ReservationStep(w: World, a: BusAccess)
    requires WellSized(a) && !a.LoadExclusive? && Perform(w, a).0.monitor.valid
    ensures
      var w' := Perform(w, a).0;
      w'.monitor == w.monitor && (Clear(w, a) ==> Watched(w') == Watched(w))
  {
    hide ToBytes, StoreAll, AllGranted, Bytes, Covered, RunApart;
    if a.Stores? && Perform(w, a).1.status == OK && Clear(w, a) {
      StoresStayInside(w.ram, a.addr, a.n, a.values, w.monitor.addr, w.monitor.size);
    }
  }

  predicate AllSized(steps: seq<BusAccess>) {
    forall k :: 0 <= k < |steps| ==> WellSized(steps[k])
  }

  function After(w: World, steps: seq<BusAccess>): World
    requires AllSized(steps)
  {
    if steps == [] then w else Perform(After(w, steps[..|steps| - 1]), steps[|steps| - 1]).0
  }

  lemma AfterOneMore(w: World, steps: seq<BusAccess>, k: nat)
    requires AllSized(steps) && k < |steps|
    ensures After(w, steps[..k + 1]) == Perform(After(w, steps[..k]), steps[k]).0
  {
    assert steps[..k + 1][..k] == steps[..k];
  }

  /** Between steps `i` and `j` no new reservation is made. */
  predicate Undisturbed(steps: seq<BusAccess>, i: nat, j: nat) {
    forall k :: i <= k < j && k < |steps| ==> !steps[k].LoadExclusive?
  }

  predicate ClearBetween(w: World, steps: seq<BusAccess>, i: nat, j: nat)
    requires AllSized(steps) && j <= |steps|
  {
    forall k :: i <= k < j ==> Clear(After(w, steps[..k]), steps[k])
  }

  /** A reservation standing at step `j` already stood, the same, ever since the last exclusive load; and its bytes
      are unchanged if every step was clear. */
  lemma {:induction false} ReservationHolds(w: World, steps: seq<BusAccess>, i: nat, j: nat)
    requires AllSized(steps) && i <= j <= |steps| && Undisturbed(steps, i, j)
    requires After(w, steps[..j]).monitor.valid
    ensures
      var start, now := After(w, steps[..i]), After(w, steps[..j]);
      start.monitor == now.monitor && (ClearBetween(w, steps, i, j) ==> Watched(now) == Watched(start))
    decreases j - i
  {
    hide Perform, Watched, After, Clear;
    if i < j {
      AfterOneMore(w, steps, j - 1);
      ReservationStep(After(w, steps[..j - 1]), steps[j - 1]);
      ReservationHolds(w, steps, i, j - 1);
    }
  }

  /** Step `i` loads exclusively, step `j` is the exclusive store that answers it and succeeds. */
  predicate Pair(w: World, steps: seq<BusAccess>, i: nat, j: nat)
    requires AllSized(steps)
  {
    && i < j < |steps| && steps[i].LoadExclusive? && steps[j].StoreExclusive? && Undisturbed(steps, i + 1, j)
    && Perform(After(w, steps[..i]), steps[i]).1.status == OK
    && Perform(After(w, steps[..j]), steps[j]).1 == Verdict(OK, true)
  }

  /** What the exclusive load at step `i` reads, as the memory holds it before step `k`. */
  function Held(w: World, steps: seq<BusAccess>, i: nat, k: nat): seq<u8>
    requires AllSized(steps) && i < |steps| && k <= |steps| && steps[i].LoadExclusive?
  {
    Bytes(After(w, steps[..k]).ram.data, steps[i].addr, steps[i].n)
  }

  /** The reservation a successful pair runs under, at every step between its halves. */
  lemma PairReserves(w: World, steps: seq<BusAccess>, i: nat, j: nat, k: nat)
    requires AllSized(steps) && Pair(w, steps, i, j) && i < k <= j
    ensures After(w, steps[..k]).monitor == Monitor(steps[i].addr, steps[i].n, true)
    ensures steps[j].addr == steps[i].addr && steps[j].n == steps[i].n
  {
    hide After, Covered;
    AfterOneMore(w, steps, i);
    ReservationHolds(w, steps, i + 1, j);
    ReservationHolds(w, steps, k, j);
  }

  /** Atomic read-modify-write: when the exclusive store that answers the load at step `i` succeeds, its range is the
      loaded one and, if every step between them was clear, still holds exactly the bytes that load read. */
  lemma ExclusivePairIsAtomic(w: World, steps: seq<BusAccess>, i: nat, j: nat)
    requires AllSized(steps) && Pair(w, steps, i, j) && ClearBetween(w, steps, i + 1, j)
    ensures steps[j].addr == steps[i].addr && steps[j].n == steps[i].n && Held(w, steps, i, j) == Held(w, steps, i, i)
  {
    hide After, Clear, Covered, Bytes;
    PairReserves(w, steps, i, j, i + 1);
    PairReserves(w, steps, i, j, j);
    AfterOneMore(w, steps, i);
    ReservationHolds(w, steps, i + 1, j);
  }

  // ----- the condition is exact -----

  /** The same access, up to the values it stores. */
  predicate SameShape(a: BusAccess, b: BusAccess) {
    match a
    case Stores(addr, n, values, noted) =>
      b.Stores? && b.addr == addr && b.n == n && |b.values| == |values| && b.noted == noted
    case StoreExclusive(addr, n, _) => b.StoreExclusive? && b.addr == addr && b.n == n
    case _ => a == b
  }

  predicate SameShapes(steps: seq<BusAccess>, others: seq<BusAccess>) {
    |steps| == |others| && forall k :: 0 <= k < |steps| ==> SameShape(steps[k], others[k])
  }

  lemma SameShapeStep(w: World, v: World, a: BusAccess, b: BusAccess)
    requires WellSized(a) && SameShape(a, b) && w.monitor == v.monitor && w.ram.regions == v.ram.regions
    ensures WellSized(b) && Perform(w, a).1 == Perform(v, b).1 && (Clear(w, a) <==> Clear(v, b))
    ensures Perform(w, a).0.monitor == Perform(v, b).0.monitor
    ensures Perform(w, a).0.ram.regions == Perform(v, b).0.ram.regions
  {
    hide Covered, AllGranted, StoreAll, RunApart, ToBytes;
  }

  /** Which accesses are granted, and what becomes of the reservation, does not depend on the values stored. */
  lemma {:induction false} SameShapesAgree(w: World, steps: seq<BusAccess>, others: seq<BusAccess>, k: nat)
    requires AllSized(steps) && SameShapes(steps, others) && k <= |steps|
    ensures AllSized(others)
    ensures After(w, steps[..k]).monitor == After(w, others[..k]).monitor
    ensures After(w, steps[..k]).ram.regions == After(w, others[..k]).ram.regions
  {
    hide WellSized, Perform;
    assert AllSized(others) by {
      forall x | 0 <= x < |others| ensures WellSized(others[x]) {
        assert SameShape(steps[x], others[x]);
        SameShapeStep(w, w, steps[x], others[x]);
      }
    }
    if k > 0 {
      SameShapesAgree(w, steps, others, k - 1);
      AfterOneMore(w, steps, k - 1);
      AfterOneMore(w, others, k - 1);
      SameShapeStep(After(w, steps[..k - 1]), After(w, others[..k - 1]), steps[k - 1], others[k - 1]);
    }
  }

  lemma SameShapesPair(w: World, steps: seq<BusAccess>, others: seq<BusAccess>, i: nat, j: nat)
    requires AllSized(steps) && SameShapes(steps, others) && Pair(w, steps, i, j)
    ensures AllSized(others) && Pair(w, others, i, j)
    ensures forall k :: i < k < j ==>
              (Clear(After(w, steps[..k]), steps[k]) <==> Clear(After(w, others[..k]), others[k]))
  {
    hide After, Perform, Clear;
    SameShapesAgree(w, steps, others, 0);
    forall k | 0 <= k < |steps|
      ensures Perform(After(w, steps[..k]), steps[k]).1 == Perform(After(w, others[..k]), others[k]).1
      ensures Clear(After(w, steps[..k]), steps[k]) <==> Clear(After(w, others[..k]), others[k])
    {
      SameShapesAgree(w, steps, others, k);
      assert SameShape(steps[k], others[k]);
      SameShapeStep(After(w, steps[..k]), After(w, others[..k]), steps[k], others[k]);
    }
    assert SameShape(steps[i], others[i]) && SameShape(steps[j], others[j]);
    assert Undisturbed(others, i + 1, j) by {
      forall k | i + 1 <= k < j ensures !others[k].LoadExclusive? {
        assert SameShape(steps[k], others[k]);
      }
    }
  }

  /** The word whose bytes are all `b`. */
  predicate Uniform(v: nat, n: nat, b: u8) {
    forall k :: 0 <= k < n ==> ToBytes(v, n)[k] == b
  }

  lemma UniformMore(v: nat, n: nat, b: u8)
    requires Uniform(v, n, b)
    ensures Uniform(256 * v + b as int, n + 1, b)
  {
    hide ToBytes;
    var more := ToBytes(256 * v + b as int, n + 1);
    LowByteThen(v, n, b);
    forall k | 0 <= k < n + 1 ensures more[k] == b {
      assert k > 0 ==> more[k] == ToBytes(v, n)[k - 1];
    }
  }

  lemma LowByteThen(v: nat, n: nat, b: u8)
    ensures ToBytes(256 * v + b as int, n + 1) == [b] + ToBytes(v, n)
  {
    assert (256 * v + b as int) / 256 == v && (256 * v + b as int) % 256 == b as int;
  }

  lemma {:induction false} ZeroWord(n: nat)
    ensures Uniform(0, n, 0)
  {
    if n > 0 {
      ZeroWord(n - 1);
      UniformMore(0, n - 1, 0);
    }
  }

  lemma {:induction false} OnesBytes(n: nat, m: nat)
    requires n <= m
    ensures Uniform(Pow256(m) - 1, n, 255)
  {
    if n > 0 {
      OnesBytes(n - 1, m - 1);
      UniformMore(Pow256(m - 1) - 1, n - 1, 255);
    }
  }

  lemma OnesWord(n: nat)
    requires n <= 8
    ensures Uniform(TWO64 - 1, n, 255)
  {
    Pow256Values();
    OnesBytes(n, 8);
  }

  function Repeated(v: u64, count: nat): seq<u64> {
    seq(count, i => v)
  }

  lemma StoreAllKeys(m: Ram, addr: u64, n: nat, values: seq<u64>)
    ensures StoreAll(m, addr, n, values).data.Keys == m.data.Keys
  {
    hide Piece, ToBytes;
  }

  lemma UniformStore(data: map<int, u8>, at: int, n: nat, v: u64, b: u8, x: int)
    requires Uniform(v, n, b) && x in data
    ensures Put(data, at, ToBytes(v, n))[x] == if at <= x < at + n then b else data[x]
  {
    hide ToBytes;
  }

  lemma RepeatedRun(m: Ram, addr: u64, n: nat, v: u64, count: nat)
    ensures
      var before := StoreAll(m, addr, n, Repeated(v, count));
      StoreAll(m, addr, n, Repeated(v, count + 1)) ==
        before.(data := Put(before.data, Piece(addr, count, n), ToBytes(v, n)))
  {
    hide Piece, ToBytes, Put;
    assert Repeated(v, count + 1)[..count] == Repeated(v, count);
  }

  /** A run of one uniform word leaves its byte at every mapped address it meets. */
  lemma {:induction false} UniformRun(m: Ram, addr: u64, n: nat, v: u64, count: nat, b: u8, x: int, k: nat)
    requires Uniform(v, n, b) && x in m.data
    requires k < count && Piece(addr, k, n) <= x < Piece(addr, k, n) + n
    ensures x in StoreAll(m, addr, n, Repeated(v, count)).data
    ensures StoreAll(m, addr, n, Repeated(v, count)).data[x] == b
  {
    hide Piece, ToBytes, Uniform, Put, StoreAll, Repeated;
    var last := count - 1;
    RepeatedRun(m, addr, n, v, last);
    var before := StoreAll(m, addr, n, Repeated(v, last));
    StoreAllKeys(m, addr, n, Repeated(v, last));
    UniformStore(before.data, Piece(addr, last, n), n, v, b, x);
    if k < last {
      UniformRun(m, addr, n, v, last, b, x, k);
    }
  }

  /** A granted run, whatever it stores, leaves a mapped range alone exactly when no piece meets it. */
  lemma StoresSpareExactly(m: Ram, addr: u64, n: nat, count: nat, a: int, size: nat)
    requires WellFormed(m) && TransferSize(n) && AllGranted(m.regions, addr, n, count, WRITE) && size > 0
    ensures RunApart(addr, n, count, a, size) <==>
            forall values: seq<u64> :: |values| == count ==>
              Bytes(StoreAll(m, addr, n, values).data, a, size) == Bytes(m.data, a, size)
  {
    hide Piece, WellFormed, ToBytes, AllGranted, Bytes;
    if RunApart(addr, n, count, a, size) {
      forall values: seq<u64> | |values| == count
        ensures Bytes(StoreAll(m, addr, n, values).data, a, size) == Bytes(m.data, a, size)
      {
        StoresStayInside(m, addr, n, values, a, size);
      }
    } else {
      var x, k := Met(m, addr, n, count, a, size);
      var zeros, ones := Repeated(0, count), Repeated(TWO64 - 1, count);
      MeetsUniform(m, addr, n, count, x, k, a, size);
      assert |zeros| == count && |ones| == count;
    }
  }

  /** A mapped address of the range that the run writes. */
  lemma Met(m: Ram, addr: u64, n: nat, count: nat, a: int, size: nat) returns (x: int, k: nat)
    requires WellFormed(m) && AllGranted(m.regions, addr, n, count, WRITE) && size > 0 && n > 0
    requires !RunApart(addr, n, count, a, size)
    ensures x in m.data && a <= x < a + size
    ensures k < count && Piece(addr, k, n) <= x < Piece(addr, k, n) + n
  {
    hide Piece, WellFormed, Covered;
    k :| 0 <= k < count && !PieceApart(addr, k, n, a, size);
    x := if Piece(addr, k, n) < a then a else Piece(addr, k, n);
    CoveredBytesMapped(m, Piece(addr, k, n), n, WRITE);
  }

  /** All-zero and all-one words leave different bytes at an address the run writes. */
  lemma MeetsUniform(m: Ram, addr: u64, n: nat, count: nat, x: int, k: nat, a: int, size: nat)
    requires TransferSize(n) && x in m.data && a <= x < a + size
    requires k < count && Piece(addr, k, n) <= x < Piece(addr, k, n) + n
    ensures Bytes(StoreAll(m, addr, n, Repeated(0, count)).data, a, size)[x - a] == 0
    ensures Bytes(StoreAll(m, addr, n, Repeated(TWO64 - 1, count)).data, a, size)[x - a] == 255
  {
    hide Piece, Uniform, StoreAll, Repeated;
    ZeroWord(n);
    OnesWord(n);
    UniformRun(m, addr, n, 0, count, 0, x, k);
    UniformRun(m, addr, n, TWO64 - 1, count, 255, x, k);
  }

  lemma {:induction false} StoreAllWellFormed(m: Ram, addr: u64, n: nat, values: seq<u64>)
    requires WellFormed(m)
    ensures WellFormed(StoreAll(m, addr, n, values))
  {
    hide Piece, ToBytes, WellFormed;
    if values != [] {
      var last := |values| - 1;
      StoreAllWellFormed(m, addr, n, values[..last]);
      StoreKeepsWellFormed(StoreAll(m, addr, n, values[..last]), Piece(addr, last, n), ToBytes(values[last], n));
    }
  }

  lemma {:induction false} AfterWellFormed(w: World, steps: seq<BusAccess>)
    requires AllSized(steps) && WellFormed(w.ram)
    ensures WellFormed(After(w, steps).ram)
  {
    hide StoreAll, AllGranted, Covered, ToBytes, WellFormed;
    if steps != [] {
      var before, a := After(w, steps[..|steps| - 1]), steps[|steps| - 1];
      AfterWellFormed(w, steps[..|steps| - 1]);
      if a.Stores? {
        StoreAllWellFormed(before.ram, a.addr, a.n, a.values);
      } else if a.StoreExclusive? {
        StoreKeepsWellFormed(before.ram, a.addr, ToBytes(a.value, a.n));
      }
    }
  }

  /** The pair finds the loaded bytes again whatever values the stores of the run carry. */
  ghost predicate AlwaysAtomic(w: World, steps: seq<BusAccess>, i: nat, j: nat)
    requires AllSized(steps) && i < j < |steps| && steps[i].LoadExclusive?
  {
    forall others :: SameShapes(steps, others) && AllSized(others) ==> Held(w, others, i, j) == Held(w, others, i, i)
  }

  /** A pair is atomic for all values stored by the run exactly when every step between its halves was clear. */
  lemma PairIsAtomicExactlyIfClear(w: World, steps: seq<BusAccess>, i: nat, j: nat)
    requires AllSized(steps) && WellFormed(w.ram) && Pair(w, steps, i, j)
    ensures AlwaysAtomic(w, steps, i, j) <==> ClearBetween(w, steps, i + 1, j)
  {
    hide After, WellFormed, Clear, Perform;
    if ClearBetween(w, steps, i + 1, j) {
      forall others: seq<BusAccess> | SameShapes(steps, others) && AllSized(others)
        ensures others[i].LoadExclusive? && Held(w, others, i, j) == Held(w, others, i, i)
      {
        assert SameShape(steps[i], others[i]);
        SameShapesPair(w, steps, others, i, j);
        ExclusivePairIsAtomic(w, others, i, j);
      }
    } else {
      var k := LastUnclear(w, steps, i + 1, j);
      var zeros, ones := Overwritten(w, steps, i, j, k);
    }
  }

  lemma {:induction false} LastUnclear(w: World, steps: seq<BusAccess>, i: nat, j: nat) returns (k: nat)
    requires AllSized(steps) && j <= |steps| && !ClearBetween(w, steps, i, j)
    ensures i <= k < j && !Clear(After(w, steps[..k]), steps[k]) && ClearBetween(w, steps, k + 1, j)
    decreases j
  {
    hide After, Clear;
    if !Clear(After(w, steps[..j - 1]), steps[j - 1]) {
      k := j - 1;
    } else {
      k := LastUnclear(w, steps, i, j - 1);
    }
  }

  /** The run with step `k` storing the one word `v` throughout. */
  function Storing(steps: seq<BusAccess>, k: nat, v: u64): (others: seq<BusAccess>)
    requires k < |steps| && steps[k].Stores? && AllSized(steps)
    ensures SameShapes(steps, others) && AllSized(others)
  {
    steps[k := steps[k].(values := Repeated(v, |steps[k].values|))]
  }

  /** Storing zeros or ones at the last unclear step leaves different bytes for the exclusive store, though the
      exclusive load read the same. */
  lemma Overwritten(w: World, steps: seq<BusAccess>, i: nat, j: nat, k: nat)
    returns (zeros: seq<BusAccess>, ones: seq<BusAccess>)
    requires AllSized(steps) && WellFormed(w.ram) && Pair(w, steps, i, j) && i < k < j
    requires !Clear(After(w, steps[..k]), steps[k]) && ClearBetween(w, steps, k + 1, j)
    ensures SameShapes(steps, zeros) && AllSized(zeros) && SameShapes(steps, ones) && AllSized(ones)
    ensures Held(w, zeros, i, i) == Held(w, ones, i, i) && Held(w, zeros, i, j) != Held(w, ones, i, j)
  {
    PairReserves(w, steps, i, j, k);
    hide After, WellFormed, Pair, RunApart, StoreAll, Repeated;
    var before, a := After(w, steps[..k]), steps[k];
    AfterWellFormed(w, steps[..k]);
    var x, p := Met(before.ram, a.addr, a.n, |a.values|, before.monitor.addr, before.monitor.size);
    MeetsUniform(before.ram, a.addr, a.n, |a.values|, x, p, before.monitor.addr, before.monitor.size);
    zeros, ones := Storing(steps, k, 0), Storing(steps, k, TWO64 - 1);
    StoringHolds(w, steps, i, j, k, 0);
    StoringHolds(w, steps, i, j, k, TWO64 - 1);
  }

  lemma StoringHolds(w: World, steps: seq<BusAccess>, i: nat, j: nat, k: nat, v: u64)
    requires AllSized(steps) && Pair(w, steps, i, j) && i < k < j && steps[k].Stores?
    requires Perform(After(w, steps[..k]), steps[k]).1.status == OK && ClearBetween(w, steps, k + 1, j)
    ensures
      var before, a, others := After(w, steps[..k]), steps[k], Storing(steps, k, v);
      && Held(w, others, i, i) == Held(w, steps, i, i)
      && Held(w, others, i, j) ==
           Bytes(StoreAll(before.ram, a.addr, a.n, Repeated(v, |a.values|)).data, steps[i].addr, steps[i].n)
  {
    hide After, Clear, StoreAll, Repeated, Bytes;
    var others := Storing(steps, k, v);
    assert others[..i] == steps[..i] && others[..k] == steps[..k];
    SameShapesPair(w, steps, others, i, j);
    PairReserves(w, others, i, j, k + 1);
    PairReserves(w, others, i, j, j);
    ReservationHolds(w, others, k + 1, j);
    AfterOneMore(w, others, k);
  }

  /** An exclusive store that does not take effect writes no memory. */
  lemma FailedExclusiveWritesNothing(w: World, a: BusAccess)
    requires WellSized(a) && a.StoreExclusive? && !Perform(w, a).1.stored
    ensures Perform(w, a).0.ram == w.ram
  {
    hide Covered, ToBytes;
  }

  // ----- the three ways the code has of leaving a step unclear -----

  const ALL := Perms(true, true, false)

  /** A line's worth of memory at each end of the address space. */
  const ENDS := [Region(0, 64, ALL), Region(TWO64 - 64, 64, ALL)]

  /** The single-vector store never tells the monitor: one between the halves of a pair is lost without the pair
      failing. */
  lemma UnannouncedStoreIsLost(ram: Ram)
    requires ram.regions == ENDS && 0 in ram.data && ram.data[0] == 0
    ensures
      var steps := [LoadExclusive(0, 8), Stores(0, 8, [1, 0], false), StoreExclusive(0, 8, 0)];
      var w := World(Monitor(0, 0, false), ram);
      && AllSized(steps) && Pair(w, steps, 0, 2) && Held(w, steps, 0, 0)[0] == 0 && Held(w, steps, 0, 2)[0] == 1
  {
    hide StoreAll, Covered, AllGranted;
    var values: seq<u64> := [1, 0];
    EndsGranted(ram);
    FirstByteStored(ram, 0, values, 0);
    StoreIsLost(ram, Stores(0, 8, values, false));
  }

  /** DC ZVA stores its eight double words without telling the monitor either: a line cleared between the halves of a
      pair is lost. */
  lemma ClearedLineIsLost(ram: Ram)
    requires ram.regions == ENDS && 0 in ram.data && ram.data[0] == 1
    ensures
      var steps := [LoadExclusive(0, 8), Stores(0, 8, Repeated(0, 8), false), StoreExclusive(0, 8, 0)];
      var w := World(Monitor(0, 0, false), ram);
      && AllSized(steps) && Pair(w, steps, 0, 2) && Held(w, steps, 0, 0)[0] == 1 && Held(w, steps, 0, 2)[0] == 0
  {
    hide StoreAll, Covered, AllGranted, Uniform;
    EndsGranted(ram);
    ZeroWord(8);
    assert Piece(0, 0, 8) == 0;
    UniformRun(ram, 0, 8, 0, 8, 0, 0, 0);
    StoreIsLost(ram, Stores(0, 8, Repeated(0, 8), false));
  }

  /** The overlap test does not see past the end of the address space: the second word of a pair stored at 2^64 - 8
      lands in the range reserved at 0, and the reservation stands. */
  lemma WrappingStoreIsLost(ram: Ram)
    requires ram.regions == ENDS && 0 in ram.data && ram.data[0] == 0
    ensures Noted(Monitor(0, 8, true), TWO64 - 8, 16).valid && Piece(TWO64 - 8, 1, 8) == 0
    ensures
      var steps := [LoadExclusive(0, 8), Stores(TWO64 - 8, 8, [1, 1], true), StoreExclusive(0, 8, 0)];
      var w := World(Monitor(0, 0, false), ram);
      && AllSized(steps) && Pair(w, steps, 0, 2) && Held(w, steps, 0, 0)[0] == 0 && Held(w, steps, 0, 2)[0] == 1
  {
    hide StoreAll, Covered, AllGranted;
    var values: seq<u64> := [1, 1];
    EndsGranted(ram);
    FirstByteStored(ram, TWO64 - 8, values, 1);
    StoreIsLost(ram, Stores(TWO64 - 8, 8, values, true));
  }

  /** A pair around one store that the monitor survives, seen at address 0. */
  lemma StoreIsLost(ram: Ram, a: BusAccess)
    requires ram.regions == ENDS && 0 in ram.data
    requires Covered(ram.regions, 0, 8, READ) && Covered(ram.regions, 0, 8, WRITE)
    requires a.Stores? && WellSized(a) && AllGranted(ram.regions, a.addr, a.n, |a.values|, WRITE)
    requires a.noted ==> Noted(Monitor(0, 8, true), a.addr, a.n * |a.values|).valid
    ensures
      var steps, w := [LoadExclusive(0, 8), a, StoreExclusive(0, 8, 0)], World(Monitor(0, 0, false), ram);
      && AllSized(steps) && Pair(w, steps, 0, 2) && Held(w, steps, 0, 0)[0] == ram.data[0]
      && Held(w, steps, 0, 2)[0] == ByteAt(StoreAll(ram, a.addr, a.n, a.values).data, 0)
  {
    hide StoreAll, Covered, AllGranted;
    var steps, w := [LoadExclusive(0, 8), a, StoreExclusive(0, 8, 0)], World(Monitor(0, 0, false), ram);
    AfterOneMore(w, steps, 0);
    AfterOneMore(w, steps, 1);
    assert steps[..0] == [];
  }

  lemma EndsGranted(ram: Ram)
    requires ram.regions == ENDS
    ensures Covered(ram.regions, 0, 8, READ) && Covered(ram.regions, 0, 8, WRITE)
    ensures AllGranted(ram.regions, 0, 8, 2, WRITE) && AllGranted(ram.regions, TWO64 - 8, 8, 2, WRITE)
    ensures AllGranted(ram.regions, 0, 8, 8, WRITE)
  {
    var low, high := ram.regions[0], ram.regions[1];
    assert Covers(low, 0, 8, READ);
    assert Covers(high, TWO64 - 8, 8, WRITE);
    forall k | 0 <= k < 8 ensures Covered(ram.regions, Piece(0, k, 8), 8, WRITE) {
      assert Covers(low, Piece(0, k, 8), 8, WRITE);
    }
    assert Piece(0, 0, 8) == 0;
    assert Piece(TWO64 - 8, 0, 8) == TWO64 - 8 && Piece(TWO64 - 8, 1, 8) == 0;
  }

  /** Of two words stored, the one at address 0 leaves its low byte there. */
  lemma FirstByteStored(ram: Ram, addr: u64, values: seq<u64>, k: nat)
    requires 0 in ram.data && |values| == 2 && k < 2 && addr == (if k == 0 then 0 else TWO64 - 8)
    ensures ByteAt(StoreAll(ram, addr, 8, values).data, 0) == (values[k] % 256) as u8
  {
    hide ToBytes;
    var first := values[..1];
    assert first[..0] == [] && first[0] == values[0] && StoreAll(ram, addr, 8, first[..0]) == ram;
    var one := StoreAll(ram, addr, 8, first);
    assert Piece(addr, 0, 8) == addr && Piece(addr, 1, 8) == if k == 0 then 8 else 0;
    LowByteFirst(values[k]);
    assert one.data == Put(ram.data, addr, ToBytes(values[0], 8));
  }

  lemma LowByteFirst(v: nat)
    ensures ToBytes(v, 8)[0] == (v % 256) as u8
  {
  }
}
