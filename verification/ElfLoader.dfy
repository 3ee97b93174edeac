/** The ELF64 loader: decide everything about the image first, then map its segments. */
module ElfLoader {
  import opened Words
  import opened FlatMemory
  import opened GuestMemory

  datatype Segment = Segment(vaddr: u64, memsz: u64, filesz: u64, offset: u64, perms: Perms)
  datatype Image = Image(entry: u64, loadMin: u64, loadMax: u64, count: nat)

  const MIN_HEADER: nat := 64
  const PHENTSIZE: nat := 56

  /** off + span <= size, without the sum. */
  predicate Within(off: nat, span: nat, size: nat) {
    off <= size && span <= size - off
  }

  /** A little-endian field of the image. */
  function Field(img: seq<u8>, off: nat, n: nat): (v: nat)
    requires off + n <= |img| && (n == 2 || n == 4 || n == 8)
    ensures v < Pow256(n) <= TWO64
  {
    Pow256Values();
    LittleEndianBound(img[off..off + n]);
    LittleEndian(img[off..off + n])
  }

  /** The checks on the fixed header, in the loader's order. */
  function HeaderCheck(img: seq<u8>): Status {
    if |img| < MIN_HEADER then INVALID_ARG
    else if img[0] != 0x7F || img[1] != 69 || img[2] != 76 || img[3] != 70 then INVALID_ARG
    else if img[4] != 2 || img[5] != 1 || Field(img, 16, 2) != 2 || Field(img, 18, 2) != 183 then UNSUPPORTED
    else if Field(img, 54, 2) != PHENTSIZE || Headers(img) == 0 then INVALID_ARG
    else if Field(img, 32, 8) + Headers(img) * PHENTSIZE > |img| then INVALID_ARG
    else OK
  }

  function Headers(img: seq<u8>): nat
    requires |img| >= MIN_HEADER
  {
    Field(img, 56, 2)
  }

  /** Where program header `i` starts. */
  function HeaderAt(img: seq<u8>, i: nat): (base: nat)
    requires HeaderCheck(img) == OK && i < Headers(img)
    ensures base + PHENTSIZE <= |img|
  {
    Distribute56(i, Headers(img));
    Field(img, 32, 8) + i * PHENTSIZE
  }

  lemma Distribute56(i: nat, n: nat)
    requires i < n
    ensures i * PHENTSIZE + PHENTSIZE <= n * PHENTSIZE
  {
  }

  predicate Loadable(img: seq<u8>, i: nat)
    requires HeaderCheck(img) == OK && i < Headers(img)
  {
    var base := HeaderAt(img, i);
    Field(img, base, 4) == 1 && Field(img, base + 40, 8) != 0
  }

  /** One segment's verdict from its header fields. */
  function ValidateSegment(flags: nat, offset: u64, vaddr: u64, filesz: u64, memsz: u64, align: u64,
          size: nat): (r: (Status, Segment))
    ensures r.0 == OK ==>
              && 0 < r.1.memsz && r.1.perms != NONE && r.1.filesz <= r.1.memsz
              && r.1.offset + r.1.filesz <= size && r.1.vaddr + r.1.memsz < TWO64
  {
    var perms := Perms(Bit(flags, 4), Bit(flags, 2), Bit(flags, 1));
    var seg := Segment(vaddr, memsz, filesz, offset, perms);
    if align == 0 || perms == NONE || memsz == 0 then (INVALID_ARG, seg)
    else if filesz > memsz || !Within(offset, filesz, size) then (INVALID_ARG, seg)
    else if vaddr > TWO64 - 1 - memsz then (OVERFLOW, seg)
    else (OK, seg)
  }

  function SegmentAt(img: seq<u8>, i: nat): (r: (Status, Segment))
    requires HeaderCheck(img) == OK && i < Headers(img)
    ensures r.0 == OK ==> Fits(img, r.1)
  {
    var base := HeaderAt(img, i);
    ValidateSegment(Field(img, base + 4, 4), Field(img, base + 8, 8), Field(img, base + 16, 8),
                    Field(img, base + 32, 8),
                    Field(img, base + 40, 8), Field(img, base + 48, 8), |img|)
  }

  /** A segment that may be mapped: a file slice inside the image, no longer than a mapping that does not wrap. */
  predicate Fits(img: seq<u8>, s: Segment) {
    && 0 < s.memsz && s.perms != NONE && s.filesz <= s.memsz
    && s.offset + s.filesz <= |img| && s.vaddr + s.memsz < TWO64
  }

  /** The segments of the first `n` program headers, up to the first bad one. */
  function Plan(img: seq<u8>, n: nat): (r: (Status, seq<Segment>))
    requires HeaderCheck(img) == OK && n <= Headers(img)
    ensures forall i :: 0 <= i < |r.1| ==> Fits(img, r.1[i])
    ensures |r.1| <= LoadCount(img, n) && (r.0 == OK ==> |r.1| == LoadCount(img, n))
  {
    if n == 0 then (OK, []) else
    var p := Plan(img, n - 1);
    if p.0 != OK || !Loadable(img, n - 1) then p else
    var s := SegmentAt(img, n - 1);
    if s.0 == OK then (OK, p.1 + [s.1]) else (s.0, p.1)
  }

  function LoadCount(img: seq<u8>, n: nat): nat
    requires HeaderCheck(img) == OK && n <= Headers(img)
  {
    if n == 0 then 0 else LoadCount(img, n - 1) + if Loadable(img, n - 1) then 1 else 0
  }

  /** Header `i` is loadable and validates to `s`. */
  predicate LoadsAs(img: seq<u8>, i: nat, s: Segment)
    requires HeaderCheck(img) == OK
  {
    i < Headers(img) && Loadable(img, i) && SegmentAt(img, i) == (OK, s)
  }

  /** A good plan holds the segment of every loadable header, and nothing else. */
  lemma {:induction false} PlanIsExact(img: seq<u8>, n: nat)
    requires HeaderCheck(img) == OK && n <= Headers(img) && Plan(img, n).0 == OK
    ensures forall i :: 0 <= i < n && Loadable(img, i) ==>
                  LoadsAs(img, i, SegmentAt(img, i).1) && SegmentAt(img, i).1 in Plan(img, n).1
    ensures forall s :: s in Plan(img, n).1 ==> exists i :: 0 <= i < n && LoadsAs(img, i, s)
  {
    hide SegmentAt, Loadable;
    if n > 0 {
      PlanIsExact(img, n - 1);
      if Loadable(img, n - 1) {
        assert LoadsAs(img, n - 1, SegmentAt(img, n - 1).1);
      }
    }
  }

  function RegionOf(s: Segment): Region {
    Region(s.vaddr, s.memsz, s.perms)
  }

  predicate PairwiseApart(segs: seq<Segment>) {
    forall i, j {:trigger Apart(RegionOf(segs[i]), RegionOf(segs[j]))} :: 0 <= i < j < |segs| ==>
      Apart(RegionOf(segs[i]), RegionOf(segs[j]))
  }

  /** Segment `s` meets no region of the table. */
  predicate Clear(rs: seq<Region>, s: Segment) {
    AllApart(RegionOf(s), rs)
  }

  /** No region of the table meets a segment. */
  predicate ClearOf(rs: seq<Region>, segs: seq<Segment>) {
    forall i :: 0 <= i < |segs| ==> Clear(rs, segs[i])
  }

  /** The first segment that meets a region already in the table; their number when none does. */
  function StopsAt(rs: seq<Region>, segs: seq<Segment>): (n: nat)
    ensures n <= |segs| && ClearOf(rs, segs[..n]) && (n < |segs| ==> !Clear(rs, segs[n]))
    ensures n == |segs| <==> ClearOf(rs, segs)
  {
    if segs == [] then 0
    else if !Clear(rs, segs[0]) then 0
    else 1 + StopsAt(rs, segs[1..])
  }

  function Slice(img: seq<u8>, s: Segment): (bs: seq<u8>)
    requires Fits(img, s)
    ensures |bs| == s.filesz
  {
    img[s.offset..s.offset + s.filesz]
  }

  predicate AllFit(img: seq<u8>, segs: seq<Segment>) {
    forall i :: 0 <= i < |segs| ==> Fits(img, segs[i])
  }

  /** The memory after mapping `segs` in order. */
  function MapAll(m: Ram, img: seq<u8>, segs: seq<Segment>): Ram
    requires AllFit(img, segs)
  {
    if segs == [] then m else
    MapOne(MapAll(m, img, segs[..|segs| - 1]), img, segs[|segs| - 1])
  }

  /** The regions after mapping `segs`: the old ones, then one per segment. */
  lemma {:induction false} MapAllRegions(m: Ram, img: seq<u8>, segs: seq<Segment>)
    requires AllFit(img, segs)
    ensures
      var rs := MapAll(m, img, segs).regions;
      && |rs| == |m.regions| + |segs| && rs[..|m.regions|] == m.regions
      && forall i :: 0 <= i < |segs| ==> rs[|m.regions| + i] == RegionOf(segs[i])
  {
    if segs != [] {
      MapAllRegions(m, img, segs[..|segs| - 1]);
    }
  }

  /** Byte `k` of a loaded segment: its file slice, then zeros. */
  function Expected(img: seq<u8>, s: Segment, k: nat): u8
    requires Fits(img, s)
  {
    if k < s.filesz then img[s.offset + k] else 0
  }

  /** What a load promises of one segment's bytes. */
  ghost predicate Shows(data: map<int, u8>, img: seq<u8>, s: Segment)
    requires Fits(img, s)
  {
    forall k :: 0 <= k < s.memsz ==> Holds(data, s.vaddr + k, Expected(img, s, k))
  }

  predicate Outside(segs: seq<Segment>, a: int) {
    forall i :: 0 <= i < |segs| ==> !InRange(a, segs[i].vaddr, segs[i].memsz)
  }

  function MapOne(m: Ram, img: seq<u8>, s: Segment): Ram
    requires Fits(img, s)
  {
    MapRegion(m, s.vaddr, s.memsz, s.perms, Slice(img, s))
  }

  /** Mapping pairwise disjoint segments shows every one of them exactly. */
  lemma {:induction false} MapAllShows(m: Ram, img: seq<u8>, segs: seq<Segment>)
    requires AllFit(img, segs) && PairwiseApart(segs)
    ensures forall i :: 0 <= i < |segs| ==> Shows(MapAll(m, img, segs).data, img, segs[i])
  {
    hide Fits, Shows, MapOne;
    if segs != [] {
      var last := |segs| - 1;
      var before := MapAll(m, img, segs[..last]);
      MapAllShows(m, img, segs[..last]);
      LastShows(before, img, segs[last]);
      forall i | 0 <= i < last ensures Shows(MapAll(m, img, segs).data, img, segs[i]) {
        assert Shows(before.data, img, segs[..last][i]);
        assert Apart(RegionOf(segs[i]), RegionOf(segs[last]));
        EarlierShows(before, img, segs[i], segs[last]);
      }
    }
  }

  /** Every address outside the segments is as it was. */
  lemma {:induction false} MapAllElsewhere(m: Ram, img: seq<u8>, segs: seq<Segment>, a: int)
    requires AllFit(img, segs) && Outside(segs, a)
    ensures
      var data := MapAll(m, img, segs).data;
      ByteAt(data, a) == ByteAt(m.data, a) && (a in data <==> a in m.data)
  {
    hide Fits;
    if segs != [] {
      MapAllElsewhere(m, img, segs[..|segs| - 1], a);
    }
  }

  lemma LastShows(m: Ram, img: seq<u8>, s: Segment)
    requires Fits(img, s)
    ensures Shows(MapOne(m, img, s).data, img, s)
  {
    var data := MapOne(m, img, s).data;
    forall k | 0 <= k < s.memsz ensures Holds(data, s.vaddr + k, Expected(img, s, k)) {
      assert InRange(s.vaddr + k, s.vaddr, s.memsz);
    }
  }

  lemma EarlierShows(m: Ram, img: seq<u8>, early: Segment, s: Segment)
    requires Fits(img, early) && Fits(img, s) && Apart(RegionOf(early), RegionOf(s)) && Shows(m.data, img, early)
    ensures Shows(MapOne(m, img, s).data, img, early)
  {
    var data := MapOne(m, img, s).data;
    forall k | 0 <= k < early.memsz ensures Holds(data, early.vaddr + k, Expected(img, early, k)) {
      assert Holds(m.data, early.vaddr + k, Expected(img, early, k));
    }
  }

  /** The exact hull of the segments. */
  ghost predicate Hull(segs: seq<Segment>, low: int, high: int) {
    && (forall i :: 0 <= i < |segs| ==> low <= segs[i].vaddr && segs[i].vaddr + segs[i].memsz <= high)
    && (exists i :: 0 <= i < |segs| && segs[i].vaddr == low)
    && (exists i :: 0 <= i < |segs| && segs[i].vaddr + segs[i].memsz == high)
  }

  lemma SoundAllFit(img: seq<u8>, n: nat)
    requires HeaderCheck(img) == OK && n <= Headers(img)
    ensures AllFit(img, Plan(img, n).1)
  {
  }

  lemma NextMapped(m: Ram, img: seq<u8>, segs: seq<Segment>, i: nat)
    requires AllFit(img, segs) && i < |segs|
    ensures
      MapAll(m, img, segs[..i + 1]) == MapOne(MapAll(m, img, segs[..i]), img, segs[i])
  {
    assert segs[..i + 1][..i] == segs[..i];
  }

  /** The `i`-th segment has room behind the segments mapped before it exactly when it meets no old region. */
  lemma RoomForNext(m: Ram, img: seq<u8>, segs: seq<Segment>, i: nat)
    requires AllFit(img, segs) && i < |segs| && PairwiseApart(segs)
    ensures AllApart(RegionOf(segs[i]), MapAll(m, img, segs[..i]).regions) <==> Clear(m.regions, segs[i])
  {
    hide Fits, MapAll;
    MapAllRegions(m, img, segs[..i]);
    var r, rs := RegionOf(segs[i]), MapAll(m, img, segs[..i]).regions;
    forall j | 0 <= j < |rs|
      ensures if j < |m.regions| then rs[j] == m.regions[j] else Apart(r, rs[j])
    {
      if j < |m.regions| {
        assert rs[..|m.regions|][j] == rs[j];
      } else {
        var k := j - |m.regions|;
        assert rs[j] == RegionOf(segs[k]) && Apart(RegionOf(segs[k]), r);
      }
    }
    if Clear(m.regions, segs[i]) {
      forall j | 0 <= j < |rs| ensures Apart(r, rs[j]) {
        assert j < |m.regions| ==> Apart(r, m.regions[j]);
      }
    } else {
      var j :| 0 <= j < |m.regions| && !Apart(r, m.regions[j]);
      assert !Apart(r, rs[j]);
    }
  }

  lemma BeforeStop(rs: seq<Region>, segs: seq<Segment>, i: nat)
    requires i < StopsAt(rs, segs)
    ensures Clear(rs, segs[i])
  {
    assert segs[..StopsAt(rs, segs)][i] == segs[i];
  }

  /** The segments of an acceptable header, in table order. */
  function Segments(img: seq<u8>): (segs: seq<Segment>)
    ensures AllFit(img, segs)
  {
    if HeaderCheck(img) == OK then Plan(img, Headers(img)).1 else []
  }

  /** Everything the loader decides before it touches the memory, in its order. */
  function Decision(img: seq<u8>, room: int, planOk: bool): Status {
    if HeaderCheck(img) != OK then HeaderCheck(img)
    else if LoadCount(img, Headers(img)) == 0 then INVALID_ARG
    else if LoadCount(img, Headers(img)) > room then RANGE
    else if !planOk then NO_MEMORY
    else if Plan(img, Headers(img)).0 != OK then Plan(img, Headers(img)).0
    else if !PairwiseApart(Plan(img, Headers(img)).1) then RANGE
    else OK
  }

  /** How mapping accepted segments ends when `allocs` block allocations succeed before one fails. */
  function MappingStatus(rs: seq<Region>, segs: seq<Segment>, allocs: nat): Status {
    if allocs < StopsAt(rs, segs) then NO_MEMORY else if StopsAt(rs, segs) < |segs| then RANGE else OK
  }

  /** How many segments are mapped by then. */
  function MappedCount(rs: seq<Region>, segs: seq<Segment>, allocs: nat): (n: nat)
    ensures n <= |segs|
  {
    if allocs < StopsAt(rs, segs) then allocs else StopsAt(rs, segs)
  }

  /** After a load every loadable header has its region and shows its bytes. */
  lemma LoadIsExact(m: Ram, img: seq<u8>, i: nat)
    requires HeaderCheck(img) == OK && Plan(img, Headers(img)).0 == OK && PairwiseApart(Segments(img))
    requires i < Headers(img) && Loadable(img, i)
    ensures
      var s, after := SegmentAt(img, i).1, MapAll(m, img, Segments(img));
      && Fits(img, s) && RegionOf(s) in after.regions && Shows(after.data, img, s)
  {
    hide Loadable, SegmentAt, MapAll, Shows, Fits, PairwiseApart;
    PlanIsExact(img, Headers(img));
    var segs := Segments(img);
    MapAllShows(m, img, segs);
    MapAllRegions(m, img, segs);
    var k :| 0 <= k < |segs| && segs[k] == SegmentAt(img, i).1;
    assert MapAll(m, img, segs).regions[|m.regions| + k] == RegionOf(segs[k]);
  }

  method CountLoads(img: seq<u8>) returns (count: nat)
    requires HeaderCheck(img) == OK
    ensures count == LoadCount(img, Headers(img))
  {
    hide Loadable;
    count := 0;
    var i := 0;
    while i < Headers(img)
      invariant 0 <= i <= Headers(img) && count == LoadCount(img, i)
    {
      if Loadable(img, i) {
        count := count + 1;
      }
      i := i + 1;
    }
  }

  /** Validates every loadable header into a temporary table, stopping at the first bad one. */
  method BuildPlan(img: seq<u8>) returns (s: Status, segs: seq<Segment>)
    requires HeaderCheck(img) == OK
    ensures (s, segs) == Plan(img, Headers(img))
  {
    hide Loadable, SegmentAt;
    s, segs := OK, [];
    var i := 0;
    while i < Headers(img) && s == OK
      invariant 0 <= i <= Headers(img) && (s, segs) == Plan(img, i)
      invariant s != OK ==> Plan(img, Headers(img)) == (s, segs)
    {
      if Loadable(img, i) {
        var r := SegmentAt(img, i);
        s := r.0;
        if s == OK {
          segs := segs + [r.1];
        } else {
          PlanStops(img, i + 1);
        }
      }
      i := i + 1;
    }
  }

  lemma {:induction false} PlanStops(img: seq<u8>, n: nat)
    requires HeaderCheck(img) == OK && n <= Headers(img) && Plan(img, n).0 != OK
    ensures Plan(img, Headers(img)) == Plan(img, n)
    decreases Headers(img) - n
  {
    hide Loadable, SegmentAt;
    if n < Headers(img) {
      PlanStops(img, n + 1);
    }
  }

  method AnyOverlap(segs: seq<Segment>) returns (overlap: bool)
    requires forall i :: 0 <= i < |segs| ==> 0 < segs[i].memsz
    ensures overlap <==> !PairwiseApart(segs)
  {
    var a := 0;
    while a < |segs|
      invariant 0 <= a <= |segs|
      invariant forall i, j {:trigger Apart(RegionOf(segs[i]), RegionOf(segs[j]))} :: 0 <= i < a && i < j < |segs| ==>
                  Apart(RegionOf(segs[i]), RegionOf(segs[j]))
    {
      var b := a + 1;
      while b < |segs|
        invariant a < b <= |segs|
        invariant forall j {:trigger RegionOf(segs[j])} :: a < j < b ==> Apart(RegionOf(segs[a]), RegionOf(segs[j]))
      {
        if segs[a].vaddr < segs[b].vaddr + segs[b].memsz && segs[b].vaddr < segs[a].vaddr + segs[a].memsz {
          assert !Apart(RegionOf(segs[a]), RegionOf(segs[b]));
          return true;
        }
        b := b + 1;
      }
      a := a + 1;
    }
    return false;
  }

  /** Maps the segments in order, tracking their hull, up to the first that clashes or cannot be allocated. */
  method MapSegments(mem: AddressSpace, img: seq<u8>, segs: seq<Segment>, allocs: nat)
    returns (s: Status, low: u64, high: u64)
    requires mem.Valid() && AllFit(img, segs) && PairwiseApart(segs) && segs != []
    requires |mem.regions| + |segs| <= mem.capacity
    modifies mem
    ensures mem.Valid() && s == MappingStatus(old(mem.regions), segs, allocs)
    ensures mem.view == MapAll(old(mem.view), img, segs[..MappedCount(old(mem.regions), segs, allocs)])
    ensures s == OK ==> Hull(segs, low, high)
  {
    hide Fits, MapAll, MapOne, PairwiseApart, Slice, MapRegion, WellFormed, StopsAt, Clear, AllApart;
    low, high, s := TWO64 - 1, 0, OK;
    ghost var m, stop := mem.view, StopsAt(mem.regions, segs);
    assert segs[..0] == [] && MapAll(m, img, []) == m by { MapNone(m, img); }
    var i := 0;
    while i < |segs|
      invariant 0 <= i <= |segs| && mem.Valid() && s == OK
      invariant mem.view == MapAll(m, img, segs[..i]) && |mem.regions| == |m.regions| + i
      invariant i == 0 ==> low == TWO64 - 1 && high == 0
      invariant i > 0 ==> Hull(segs[..i], low, high)
      invariant i <= allocs && i <= stop
    {
      var seg := segs[i];
      assert Fits(img, seg);
      MapsCleanly(img, seg);
      RoomForNext(m, img, segs, i);
      NextMapped(m, img, segs, i);
      if i < stop {
        BeforeStop(m.regions, segs, i);
      }
      s := mem.MapImage(seg.vaddr, seg.memsz, seg.perms, Slice(img, seg), i < allocs);
      if s != OK {
        return;
      }
      OneMoreMapped(MapAll(m, img, segs[..i]), img, seg);
      HullGrows(segs, i, low, high);
      low := if seg.vaddr < low then seg.vaddr else low;
      high := if seg.vaddr + seg.memsz > high then seg.vaddr + seg.memsz else high;
      i := i + 1;
    }
    assert segs[..i] == segs;
  }

  lemma MapNone(m: Ram, img: seq<u8>)
    ensures MapAll(m, img, []) == m
  {
  }

  lemma MapsCleanly(img: seq<u8>, s: Segment)
    requires Fits(img, s)
    ensures CheckMapArgs(s.vaddr, s.memsz, s.perms) == OK && |Slice(img, s)| <= s.memsz && s.vaddr + s.memsz < TWO64
  {
  }

  lemma OneMoreMapped(m: Ram, img: seq<u8>, s: Segment)
    requires Fits(img, s)
    ensures MapOne(m, img, s) == MapRegion(m, s.vaddr, s.memsz, s.perms, Slice(img, s))
    ensures |MapOne(m, img, s).regions| == |m.regions| + 1
  {
  }

  lemma HullGrows(segs: seq<Segment>, i: nat, low: int, high: int)
    requires i < |segs| && 0 < segs[i].memsz && segs[i].vaddr + segs[i].memsz < TWO64
    requires if i == 0 then low == TWO64 - 1 && high == 0 else Hull(segs[..i], low, high)
    ensures Hull(segs[..i + 1], if segs[i].vaddr < low then segs[i].vaddr else low,
                 if segs[i].vaddr + segs[i].memsz > high then segs[i].vaddr + segs[i].memsz else high)
  {
    var more := segs[..i + 1];
    assert more[i] == segs[i];
    if i > 0 {
      var a :| 0 <= a < i && segs[..i][a].vaddr == low;
      var b :| 0 <= b < i && segs[..i][b].vaddr + segs[..i][b].memsz == high;
      assert more[a] == segs[..i][a] && more[b] == segs[..i][b];
      assert forall k :: 0 <= k < i ==> more[k] == segs[..i][k];
    }
  }

  /** What a load comes to: its verdict, then the memory it leaves behind. */
  function LoadStatus(m: Ram, capacity: nat, img: seq<u8>, planOk: bool, allocs: nat): Status {
    var decided := Decision(img, capacity - |m.regions|, planOk);
    if decided != OK then decided else MappingStatus(m.regions, Segments(img), allocs)
  }

  function LoadedMemory(m: Ram, capacity: nat, img: seq<u8>, planOk: bool, allocs: nat): Ram {
    if Decision(img, capacity - |m.regions|, planOk) != OK then m
    else MapAll(m, img, Segments(img)[..MappedCount(m.regions, Segments(img), allocs)])
  }

  /** The loader: its verdict and the memory it leaves, on every image, memory and allocation outcome. */
  method Load(mem: AddressSpace, img: seq<u8>, planOk: bool, allocs: nat) returns (s: Status, out: Option<Image>)
    requires mem.Valid() && |img| < TWO64
    modifies mem
    ensures mem.Valid() && (s == OK <==> out.Some?)
    ensures s == LoadStatus(old(mem.view), mem.capacity, img, planOk, allocs)
    ensures mem.view == LoadedMemory(old(mem.view), mem.capacity, img, planOk, allocs)
    ensures s == OK ==>
              && out.value.entry == Field(img, 24, 8) && out.value.count == |Segments(img)|
              && Hull(Segments(img), out.value.loadMin, out.value.loadMax)
  {
    hide Fits, MapAll, PairwiseApart, Plan, LoadCount, Hull, StopsAt;
    s := HeaderCheck(img);
    if s != OK {
      return s, None;
    }
    var count := CountLoads(img);
    if count == 0 {
      return INVALID_ARG, None;
    }
    if |mem.regions| + count > mem.capacity {
      return RANGE, None;
    }
    if !planOk {
      return NO_MEMORY, None;
    }
    var segs;
    s, segs := BuildPlan(img);
    if s != OK {
      return s, None;
    }
    SoundAllFit(img, Headers(img));
    PositiveSizes(img, segs);
    var overlap := AnyOverlap(segs);
    if overlap {
      return RANGE, None;
    }
    var low, high;
    s, low, high := MapSegments(mem, img, segs, allocs);
    if s != OK {
      return s, None;
    }
    return OK, Some(Image(Field(img, 24, 8), low, high, |segs|));
  }

  /** The header promises that only NO_MEMORY can arrive mid-map. Exactly when it is so: a result other than OK and
      NO_MEMORY leaves the memory untouched if and only if the image was refused before mapping or its first segment
      already meets a region. */
  lemma UntouchedExactly(m: Ram, capacity: nat, img: seq<u8>, planOk: bool, allocs: nat)
    requires LoadStatus(m, capacity, img, planOk, allocs) !in {OK, NO_MEMORY}
    ensures LoadedMemory(m, capacity, img, planOk, allocs) == m <==>
            Decision(img, capacity - |m.regions|, planOk) != OK || !Clear(m.regions, Segments(img)[0])
  {
    hide HeaderCheck, Plan, LoadCount, PairwiseApart, AllApart, Fits;
    if Decision(img, capacity - |m.regions|, planOk) == OK {
      var segs := Segments(img);
      var n := MappedCount(m.regions, segs, allocs);
      MapAllRegions(m, img, segs[..n]);
      if n == 0 {
        MapNone(m, img);
        assert segs[..0] == [];
      } else {
        BeforeStop(m.regions, segs, 0);
      }
    }
  }

  /** Into a memory clear of the image, any result but OK and NO_MEMORY leaves it untouched; and OK maps everything. */
  lemma ClearIsAllOrNothing(m: Ram, capacity: nat, img: seq<u8>, planOk: bool, allocs: nat)
    requires ClearOf(m.regions, Segments(img))
    ensures
      var s := LoadStatus(m, capacity, img, planOk, allocs);
      && (s !in {OK, NO_MEMORY} ==> LoadedMemory(m, capacity, img, planOk, allocs) == m)
      && (s == OK ==> LoadedMemory(m, capacity, img, planOk, allocs) == MapAll(m, img, Segments(img)))
  {
    hide HeaderCheck, Plan, LoadCount, PairwiseApart, AllApart, Fits, MapAll;
    var segs := Segments(img);
    assert segs[..|segs|] == segs;
  }

  lemma PositiveSizes(img: seq<u8>, segs: seq<Segment>)
    requires AllFit(img, segs)
    ensures forall i :: 0 <= i < |segs| ==> 0 < segs[i].memsz
  {
    forall i | 0 <= i < |segs| ensures 0 < segs[i].memsz {
      assert Fits(img, segs[i]);
    }
  }

  // ----- a load that stops half way -----

  /** The bytes of the image below. */
  function ClashByte(i: int): u8 {
    match i
    case 0 => 0x7F case 1 => 69 case 2 => 76 case 3 => 70 case 4 => 2 case 5 => 1
    case 16 => 2 case 18 => 183 case 32 => 64 case 54 => 56 case 56 => 2
    case 64 => 1 case 68 => 4 case 104 => 1 case 112 => 1
    case 120 => 1 case 124 => 4 case 136 => 16 case 160 => 1 case 168 => 1
    case _ => 0
  }

  /** A valid image of two one-byte read-only segments, at 0 and at 16. */
  function ClashImage(): (img: seq<u8>)
    ensures |img| == 176 && forall i :: 0 <= i < 176 ==> img[i] == ClashByte(i)
  {
    seq(176, i => ClashByte(i))
  }

  lemma {:induction false} LowByteOnly(bs: seq<u8>)
    requires bs != [] && forall k :: 1 <= k < |bs| ==> bs[k] == 0
    ensures LittleEndian(bs) == bs[0] as int
  {
    if |bs| > 1 {
      LowByteOnly(bs[1..]);
    }
  }

  /** A field whose upper bytes are zero is its lowest byte. */
  lemma SmallField(off: nat, n: nat)
    requires off + n <= 176 && (n == 2 || n == 4 || n == 8)
    requires forall k :: off < k < off + n ==> ClashByte(k) == 0
    ensures Field(ClashImage(), off, n) == ClashByte(off) as int
  {
    hide ClashByte, ClashImage;
    var img := ClashImage();
    var bs := img[off..off + n];
    forall k | 1 <= k < |bs| ensures bs[k] == 0 {
      assert bs[k] == img[off + k];
    }
    LowByteOnly(bs);
  }

  const FIRST := Segment(0, 1, 0, 0, READ)
  const SECOND := Segment(16, 1, 0, 0, READ)

  /** The header fields the loader reads. */
  lemma ClashHeaderFields()
    ensures
      var img := ClashImage();
      && Field(img, 16, 2) == 2 && Field(img, 18, 2) == 183 && Field(img, 32, 8) == 64
      && Field(img, 54, 2) == 56 && Field(img, 56, 2) == 2
  {
    hide ClashImage, Field;
    SmallField(16, 2);
    SmallField(18, 2);
    SmallField(32, 8);
    SmallField(54, 2);
    SmallField(56, 2);
  }

  lemma ClashHeader()
    ensures HeaderCheck(ClashImage()) == OK && Headers(ClashImage()) == 2
    ensures HeaderAt(ClashImage(), 0) == 64 && HeaderAt(ClashImage(), 1) == 120
  {
    hide Field, ClashImage;
    ClashHeaderFields();
  }

  /** The fields of the program header at `base`, which differ in the address only. */
  lemma ClashSegmentFields(base: nat)
    requires base == 64 || base == 120
    ensures
      var img := ClashImage();
      && Field(img, base, 4) == 1 && Field(img, base + 4, 4) == 4 && Field(img, base + 8, 8) == 0
      && Field(img, base + 16, 8) == (if base == 64 then 0 else 16) && Field(img, base + 32, 8) == 0
      && Field(img, base + 40, 8) == 1 && Field(img, base + 48, 8) == 1
  {
    hide ClashImage, Field;
    SmallField(base, 4);
    SmallField(base + 4, 4);
    SmallField(base + 8, 8);
    SmallField(base + 16, 8);
    SmallField(base + 32, 8);
    SmallField(base + 40, 8);
    SmallField(base + 48, 8);
  }

  lemma ClashSegment(i: nat)
    requires i < 2
    ensures HeaderCheck(ClashImage()) == OK && Headers(ClashImage()) == 2 && Loadable(ClashImage(), i)
    ensures SegmentAt(ClashImage(), i) == (OK, if i == 0 then FIRST else SECOND)
  {
    hide Field, HeaderCheck, ClashImage, Headers, HeaderAt;
    ClashHeader();
    ClashSegmentFields(if i == 0 then 64 else 120);
  }

  /** One more loadable, valid header adds its segment to the plan. */
  lemma PlanGrows(img: seq<u8>, n: nat, s: Segment)
    requires HeaderCheck(img) == OK && n < Headers(img) && Plan(img, n).0 == OK && LoadsAs(img, n, s)
    ensures Plan(img, n + 1) == (OK, Plan(img, n).1 + [s]) && LoadCount(img, n + 1) == LoadCount(img, n) + 1
  {
    hide HeaderCheck, Headers, Loadable, SegmentAt;
  }

  lemma ClashAccepted()
    ensures HeaderCheck(ClashImage()) == OK && Segments(ClashImage()) == [FIRST, SECOND]
    ensures Decision(ClashImage(), 2, true) == OK
  {
    hide HeaderCheck, ClashImage, Headers, Loadable, SegmentAt, Plan, LoadCount;
    var img := ClashImage();
    ClashHeader();
    ClashSegment(0);
    ClashSegment(1);
    PlanEmpty(img);
    PlanGrows(img, 0, FIRST);
    PlanGrows(img, 1, SECOND);
    assert [] + [FIRST] + [SECOND] == [FIRST, SECOND];
  }

  lemma PlanEmpty(img: seq<u8>)
    requires HeaderCheck(img) == OK
    ensures Plan(img, 0) == (OK, []) && LoadCount(img, 0) == 0
  {
  }

  lemma ClashStops(rs: seq<Region>)
    requires rs == [Region(16, 1, READ)]
    ensures StopsAt(rs, [FIRST, SECOND]) == 1
  {
    assert Apart(RegionOf(FIRST), rs[0]) && !Apart(RegionOf(SECOND), rs[0]);
    assert [FIRST, SECOND][1..] == [SECOND];
  }

  /** The loader run on that image, into a memory that already holds the second segment's byte: refused with RANGE
      although every allocation succeeds, and the first segment stays mapped. */
  method LoadIntoClash() returns (s: Status, mem: AddressSpace)
    ensures fresh(mem) && mem.Valid() && s == RANGE && mem.regions == [Region(16, 1, READ), RegionOf(FIRST)]
  {
    hide HeaderCheck, ClashImage, Headers, Loadable, SegmentAt, Plan, LoadCount, StopsAt, MapAll;
    mem := new AddressSpace(3);
    assert AllApart(Region(16, 1, READ), []);
    s := mem.MapImage(16, 1, READ, [], true);
    ClashAccepted();
    ghost var m := mem.view;
    ClashStops(m.regions);
    var out;
    s, out := Load(mem, ClashImage(), true, 2);
    MapAllRegions(m, ClashImage(), [FIRST, SECOND][..1]);
  }
}
