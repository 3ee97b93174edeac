/** What the loader makes of an executable as a linker writes it: the ELF-64 file header and program headers at their
    byte offsets, and the memory a program finds itself in. */
module ElfMeaning {
  import opened Words
  import opened FlatMemory
  import opened GuestMemory
  import opened ElfLoader

  /** A program header. */
  datatype Phdr = Phdr(kind: u32, flags: u32, offset: u64, vaddr: u64, filesz: u64, memsz: u64, align: u64)

  /** A file header; `table` is where the program headers start. */
  datatype Ehdr = Ehdr(wide: bool, little: bool, kind: nat, machine: nat, entry: u64, table: u64, entrySize: nat,
                       count: nat)

  /** The `n` bytes from `off` on are `v`, least significant first. */
  predicate Holding(img: seq<u8>, off: nat, n: nat, v: nat) {
    off + n <= |img| && img[off..off + n] == ToBytes(v, n)
  }

  predicate FileHeader(img: seq<u8>, h: Ehdr) {
    && |img| >= 64 && img[..4] == [0x7F, 0x45, 0x4C, 0x46]
    && h.kind < 0x1_0000 && h.machine < 0x1_0000 && h.entrySize < 0x1_0000 && h.count < 0x1_0000
    && (img[4] == 2 <==> h.wide) && (img[5] == 1 <==> h.little)
    && Holding(img, 16, 2, h.kind) && Holding(img, 18, 2, h.machine) && Holding(img, 24, 8, h.entry)
    && Holding(img, 32, 8, h.table) && Holding(img, 54, 2, h.entrySize) && Holding(img, 56, 2, h.count)
  }

  predicate ProgramHeader(img: seq<u8>, at: nat, p: Phdr) {
    && Holding(img, at, 4, p.kind) && Holding(img, at + 4, 4, p.flags) && Holding(img, at + 8, 8, p.offset)
    && Holding(img, at + 16, 8, p.vaddr) && Holding(img, at + 32, 8, p.filesz) && Holding(img, at + 40, 8, p.memsz)
    && Holding(img, at + 48, 8, p.align) && at + 56 <= |img|
  }

  /** The file is for this machine: a 64-bit little-endian AArch64 executable. */
  predicate Native(h: Ehdr) {
    h.wide && h.little && h.kind == 2 && h.machine == 0xB7
  }

  /** The table of program headers is there. */
  predicate Listed(img: seq<u8>, h: Ehdr, ps: seq<Phdr>) {
    && h.entrySize == 56 && 0 < h.count == |ps|
    && forall i :: 0 <= i < |ps| ==> ProgramHeader(img, h.table + 56 * i, ps[i])
  }

  lemma FieldIs(img: seq<u8>, off: nat, n: nat, v: nat)
    requires n == 2 || n == 4 || n == 8
    requires Holding(img, off, n, v) && v < Pow256(n)
    ensures Field(img, off, n) == v
  {
    hide ToBytes, LittleEndian;
    LittleEndianRoundTrip(v, n);
    Small(v, Pow256(n));
  }

  lemma Small(v: nat, m: nat)
    requires v < m
    ensures v % m == v
  {
  }

  lemma HeaderFields(img: seq<u8>, h: Ehdr)
    requires FileHeader(img, h)
    ensures Field(img, 16, 2) == h.kind && Field(img, 18, 2) == h.machine && Field(img, 24, 8) == h.entry
    ensures Field(img, 32, 8) == h.table && Field(img, 54, 2) == h.entrySize && Field(img, 56, 2) == h.count
  {
    hide Holding, Field, Pow256;
    Pow256Values();
    FieldIs(img, 16, 2, h.kind);
    FieldIs(img, 18, 2, h.machine);
    FieldIs(img, 24, 8, h.entry);
    FieldIs(img, 32, 8, h.table);
    FieldIs(img, 54, 2, h.entrySize);
    FieldIs(img, 56, 2, h.count);
  }

  /** What is refused for its header alone, and with which verdict. */
  lemma HeaderVerdict(img: seq<u8>, h: Ehdr)
    requires FileHeader(img, h)
    ensures HeaderCheck(img) ==
            if !Native(h) then UNSUPPORTED
            else if h.entrySize != 56 || h.count == 0 || h.table + 56 * h.count > |img| then INVALID_ARG
            else OK
    ensures Headers(img) == h.count
  {
    hide Field, Holding;
    HeaderFields(img, h);
    Magic(img);
  }

  /** What is no ELF file at all. */
  lemma ForeignVerdict(img: seq<u8>)
    requires |img| < 64 || img[..4] != [0x7F, 0x45, 0x4C, 0x46]
    ensures HeaderCheck(img) == INVALID_ARG
  {
    hide Field;
    if |img| >= 64 {
      Magic(img);
    }
  }

  lemma Magic(img: seq<u8>)
    requires |img| >= 4
    ensures img[..4] == [0x7F, 0x45, 0x4C, 0x46] <==>
            img[0] == 0x7F && img[1] == 0x45 && img[2] == 0x4C && img[3] == 0x46
  {
    assert img[..4] == [img[0], img[1], img[2], img[3]];
  }

  lemma ProgramFields(img: seq<u8>, at: nat, p: Phdr)
    requires ProgramHeader(img, at, p)
    ensures Field(img, at, 4) == p.kind && Field(img, at + 4, 4) == p.flags && Field(img, at + 8, 8) == p.offset
    ensures Field(img, at + 16, 8) == p.vaddr && Field(img, at + 32, 8) == p.filesz
    ensures Field(img, at + 40, 8) == p.memsz && Field(img, at + 48, 8) == p.align
  {
    hide Holding, Field, Pow256;
    Pow256Values();
    FieldIs(img, at, 4, p.kind);
    FieldIs(img, at + 4, 4, p.flags);
    FieldIs(img, at + 8, 8, p.offset);
    FieldIs(img, at + 16, 8, p.vaddr);
    FieldIs(img, at + 32, 8, p.filesz);
    FieldIs(img, at + 40, 8, p.memsz);
    FieldIs(img, at + 48, 8, p.align);
  }

  /** A header to be loaded: PT_LOAD, and of some size. */
  predicate Loads(p: Phdr) {
    p.kind == 1 && p.memsz > 0
  }

  /** The permissions of a segment: bit 2 of the flags is read, bit 1 write, bit 0 execute. */
  function Rights(p: Phdr): Perms {
    Perms(p.flags / 4 % 2 == 1, p.flags / 2 % 2 == 1, p.flags % 2 == 1)
  }

  /** A segment that can be had: some permission, an alignment, a slice of the file no longer than the mapping, and a
      mapping that ends below the last address. */
  predicate Sound(p: Phdr, size: nat) {
    && p.align != 0 && Rights(p) != NONE && p.filesz <= p.memsz && p.offset + p.filesz <= size
    && p.vaddr + p.memsz < 0x1_0000_0000_0000_0000
  }

  lemma SegmentVerdict(img: seq<u8>, h: Ehdr, ps: seq<Phdr>, i: nat)
    requires FileHeader(img, h) && Native(h) && Listed(img, h, ps) && i < |ps|
    ensures HeaderCheck(img) == OK && Headers(img) == |ps|
    ensures Loadable(img, i) <==> Loads(ps[i])
    ensures Loads(ps[i]) ==>
              var p, r := ps[i], SegmentAt(img, i);
              if Sound(p, |img|) then r == (OK, Segment(p.vaddr, p.memsz, p.filesz, p.offset, Rights(p)))
              else r.0 == (if p.align == 0 || Rights(p) == NONE || p.filesz > p.memsz || p.offset + p.filesz > |img|
                           then INVALID_ARG else OVERFLOW)
  {
    hide Field, Holding, FileHeader;
    HeaderVerdict(img, h);
    TableFits(img, h, ps);
    ProgramFields(img, h.table + 56 * i, ps[i]);
    Where(img, h, i);
    FlagBits(ps[i].flags);
  }

  lemma TableFits(img: seq<u8>, h: Ehdr, ps: seq<Phdr>)
    requires Listed(img, h, ps)
    ensures h.table + 56 * h.count <= |img|
  {
    hide Holding;
    assert ProgramHeader(img, h.table + 56 * (|ps| - 1), ps[|ps| - 1]);
  }

  lemma Where(img: seq<u8>, h: Ehdr, i: nat)
    requires FileHeader(img, h) && HeaderCheck(img) == OK && i < Headers(img)
    ensures HeaderAt(img, i) == h.table + 56 * i
  {
    hide Field, Holding, HeaderCheck;
    HeaderFields(img, h);
  }

  lemma FlagBits(flags: u32)
    ensures Bit(flags, 4) == (flags / 4 % 2 == 1) && Bit(flags, 2) == (flags / 2 % 2 == 1)
    ensures Bit(flags, 1) == (flags % 2 == 1)
  {
  }

  /** Two segments share an address. */
  predicate Collide(p: Phdr, q: Phdr) {
    p.vaddr < q.vaddr + q.memsz && q.vaddr < p.vaddr + p.memsz
  }

  /** A program this machine can hold: every loaded segment sound, and no two of them share an address. */
  predicate Runnable(ps: seq<Phdr>, size: nat) {
    && (exists i :: 0 <= i < |ps| && Loads(ps[i]))
    && (forall i :: 0 <= i < |ps| && Loads(ps[i]) ==> Sound(ps[i], size))
    && (forall i, j :: 0 <= i < j < |ps| && Loads(ps[i]) && Loads(ps[j]) ==> !Collide(ps[i], ps[j]))
  }

  function SegmentOf(p: Phdr): Segment {
    Segment(p.vaddr, p.memsz, p.filesz, p.offset, Rights(p))
  }

  /** The segments of the first `n` headers that are loaded. */
  function Loaded(ps: seq<Phdr>, n: nat): seq<Segment>
    requires n <= |ps|
  {
    if n == 0 then [] else
    if Loads(ps[n - 1]) then Loaded(ps, n - 1) + [SegmentOf(ps[n - 1])] else Loaded(ps, n - 1)
  }

  lemma Accepted(img: seq<u8>, h: Ehdr, ps: seq<Phdr>)
    requires FileHeader(img, h) && Native(h) && Listed(img, h, ps)
    ensures HeaderCheck(img) == OK && Headers(img) == |ps| > 0
  {
    hide FileHeader, ProgramHeader;
    HeaderVerdict(img, h);
    TableFits(img, h, ps);
  }

  lemma {:induction false} CountIsLoaded(img: seq<u8>, h: Ehdr, ps: seq<Phdr>, n: nat)
    requires FileHeader(img, h) && Native(h) && Listed(img, h, ps) && n <= |ps|
    ensures HeaderCheck(img) == OK && Headers(img) == |ps| && LoadCount(img, n) == |Loaded(ps, n)|
  {
    hide FileHeader, Listed, Sound, SegmentAt, Loadable, HeaderCheck, Headers, Loads;
    Accepted(img, h, ps);
    if n > 0 {
      CountIsLoaded(img, h, ps, n - 1);
      SegmentVerdict(img, h, ps, n - 1);
    }
  }

  /** Of the first `n` headers every loaded one is sound. */
  predicate SoundUpTo(ps: seq<Phdr>, size: nat, n: nat) {
    n <= |ps| && forall i :: 0 <= i < n && Loads(ps[i]) ==> Sound(ps[i], size)
  }

  lemma {:induction false} PlanIsLoaded(img: seq<u8>, h: Ehdr, ps: seq<Phdr>, n: nat)
    requires FileHeader(img, h) && Native(h) && Listed(img, h, ps) && SoundUpTo(ps, |img|, n)
    ensures HeaderCheck(img) == OK && Headers(img) == |ps| && Plan(img, n) == (OK, Loaded(ps, n))
  {
    hide FileHeader, Listed, Sound, SegmentAt, Loadable, HeaderCheck, Headers, Loads;
    Accepted(img, h, ps);
    if n == 0 {
      PlanEmpty(img);
    } else {
      PlanIsLoaded(img, h, ps, n - 1);
      SegmentVerdict(img, h, ps, n - 1);
      if Loads(ps[n - 1]) {
        PlanGrows(img, n - 1, SegmentOf(ps[n - 1]));
      }
    }
  }

  lemma {:induction false} LoadedFrom(ps: seq<Phdr>, n: nat, k: nat) returns (i: nat)
    requires n <= |ps| && k < |Loaded(ps, n)|
    ensures i < n && Loads(ps[i]) && Loaded(ps, n)[k] == SegmentOf(ps[i])
    ensures k == |Loaded(ps, i)|
  {
    if k < |Loaded(ps, n - 1)| {
      i := LoadedFrom(ps, n - 1, k);
    } else {
      i := n - 1;
    }
  }

  lemma {:induction false} LoadedGrows(ps: seq<Phdr>, i: nat, j: nat)
    requires i < j <= |ps|
    ensures |Loaded(ps, i)| <= |Loaded(ps, j)|
    ensures Loads(ps[i]) ==> |Loaded(ps, i)| < |Loaded(ps, j)| && Loaded(ps, j)[|Loaded(ps, i)|] == SegmentOf(ps[i])
    decreases j
  {
    if i < j - 1 {
      LoadedGrows(ps, i, j - 1);
    }
  }

  /** Nothing of the loaded segments collides. */
  lemma LoadedApart(ps: seq<Phdr>, size: nat)
    requires Runnable(ps, size)
    ensures PairwiseApart(Loaded(ps, |ps|)) && Loaded(ps, |ps|) != []
  {
    hide Sound, Loaded;
    var segs := Loaded(ps, |ps|);
    forall a, b | 0 <= a < b < |segs| ensures Apart(RegionOf(segs[a]), RegionOf(segs[b])) {
      var i := LoadedFrom(ps, |ps|, a);
      var j := LoadedFrom(ps, |ps|, b);
      if j < i {
        LoadedGrows(ps, j, i);
      }
      assert i < j;
      assert !Collide(ps[i], ps[j]);
    }
    var i :| 0 <= i < |ps| && Loads(ps[i]);
    LoadedGrows(ps, i, |ps|);
  }

  /** The first loaded header that is not sound. */
  predicate FirstBad(ps: seq<Phdr>, size: nat, i: nat) {
    SoundUpTo(ps, size, i) && i < |ps| && Loads(ps[i]) && !Sound(ps[i], size)
  }

  lemma BadPlan(img: seq<u8>, h: Ehdr, ps: seq<Phdr>, i: nat)
    requires FileHeader(img, h) && Native(h) && Listed(img, h, ps) && FirstBad(ps, |img|, i)
    ensures HeaderCheck(img) == OK && Headers(img) == |ps| && Plan(img, |ps|).0 == SegmentAt(img, i).0 != OK
  {
    hide FileHeader, Listed, SegmentAt, Loadable, HeaderCheck, Headers, Loads, Sound;
    PlanIsLoaded(img, h, ps, i);
    SegmentVerdict(img, h, ps, i);
    PlanStops(img, i + 1);
  }

  lemma CollidingPlan(ps: seq<Phdr>, i: nat, j: nat)
    requires i < j < |ps| && Loads(ps[i]) && Loads(ps[j]) && Collide(ps[i], ps[j])
    ensures !PairwiseApart(Loaded(ps, |ps|))
  {
    hide Loaded;
    LoadedGrows(ps, i, |ps|);
    LoadedGrows(ps, j, |ps|);
    LoadedGrows(ps, i, j);
    var segs := Loaded(ps, |ps|);
    assert !Apart(RegionOf(segs[|Loaded(ps, i)|]), RegionOf(segs[|Loaded(ps, j)|]));
  }

  /** What else a program can be refused for before anything is mapped, in the order it is found: nothing to load, too
      little room in the table, no memory for the plan; */
  lemma ProgramVerdict(img: seq<u8>, h: Ehdr, ps: seq<Phdr>, room: int, planOk: bool)
    requires FileHeader(img, h) && Native(h) && Listed(img, h, ps)
    ensures
      var s, loads := Decision(img, room, planOk), |Loaded(ps, |ps|)|;
      && (loads == 0 ==> s == INVALID_ARG)
      && (0 < loads && loads > room ==> s == RANGE)
      && (0 < loads <= room && !planOk ==> s == NO_MEMORY)
    ensures |Loaded(ps, |ps|)| == 0 <==> forall i :: 0 <= i < |ps| ==> !Loads(ps[i])
  {
    hide FileHeader, Listed, HeaderCheck, Headers, Plan, LoadCount, Loaded, PairwiseApart, Loads;
    CountIsLoaded(img, h, ps, |ps|);
    if |Loaded(ps, |ps|)| > 0 {
      var i := LoadedFrom(ps, |ps|, 0);
    }
    if i :| 0 <= i < |ps| && Loads(ps[i]) {
      LoadedGrows(ps, i, |ps|);
    }
  }

  /** then the first header that is not sound, with its own verdict; */
  lemma BadVerdict(img: seq<u8>, h: Ehdr, ps: seq<Phdr>, room: int, i: nat)
    requires FileHeader(img, h) && Native(h) && Listed(img, h, ps) && FirstBad(ps, |img|, i)
    requires |Loaded(ps, |ps|)| <= room
    ensures HeaderCheck(img) == OK && i < Headers(img) && Decision(img, room, true) == SegmentAt(img, i).0
  {
    hide FileHeader, Listed, HeaderCheck, Headers, Plan, LoadCount, Loaded, PairwiseApart, Loads, Sound, SegmentAt;
    CountIsLoaded(img, h, ps, |ps|);
    LoadedGrows(ps, i, |ps|);
    BadPlan(img, h, ps, i);
  }

  /** and then two that collide. */
  lemma CollidingVerdict(img: seq<u8>, h: Ehdr, ps: seq<Phdr>, room: int, i: nat, j: nat)
    requires FileHeader(img, h) && Native(h) && Listed(img, h, ps) && SoundUpTo(ps, |img|, |ps|)
    requires |Loaded(ps, |ps|)| <= room && i < j < |ps| && Loads(ps[i]) && Loads(ps[j]) && Collide(ps[i], ps[j])
    ensures Decision(img, room, true) == RANGE
  {
    hide FileHeader, Listed, HeaderCheck, Headers, Plan, LoadCount, Loaded, PairwiseApart, Loads, Sound, SoundUpTo;
    CountIsLoaded(img, h, ps, |ps|);
    LoadedGrows(ps, i, |ps|);
    PlanIsLoaded(img, h, ps, |ps|);
    CollidingPlan(ps, i, j);
  }

  /** What a program finds of one of its segments: a region of its own with exactly its rights, the slice of the file,
      and zeros after it. */
  ghost predicate Present(m: Ram, img: seq<u8>, p: Phdr)
    requires p.offset + p.filesz <= |img|
  {
    && Region(p.vaddr, p.memsz, Rights(p)) in m.regions
    && forall a :: p.vaddr <= a < p.vaddr + p.memsz ==>
         a in m.data && m.data[a] == if a < p.vaddr + p.filesz then img[p.offset + (a - p.vaddr)] else 0
  }

  /** The loader on any runnable program, into a memory its segments do not meet and with room for them: it is loaded,
      the entry point is the header's, and every segment is present. */
  method LoadProgram(mem: AddressSpace, img: seq<u8>, allocs: nat, ghost h: Ehdr, ghost ps: seq<Phdr>)
    returns (s: Status, out: Option<Image>)
    requires mem.Valid() && |img| < TWO64 && FileHeader(img, h) && Native(h) && Listed(img, h, ps)
    requires Runnable(ps, |img|) && |mem.regions| + |ps| <= mem.capacity && |ps| <= allocs
    requires forall i, j :: 0 <= i < |ps| && Loads(ps[i]) && 0 <= j < |mem.regions| ==>
               ps[i].vaddr + ps[i].memsz <= mem.regions[j].base ||
               mem.regions[j].base + mem.regions[j].size <= ps[i].vaddr
    modifies mem
    ensures mem.Valid() && s == OK && out.Some? && out.value.entry == h.entry
    ensures forall i :: 0 <= i < |ps| && Loads(ps[i]) ==>
              && Sound(ps[i], |img|) && Present(mem.view, img, ps[i])
              && out.value.loadMin <= ps[i].vaddr && ps[i].vaddr + ps[i].memsz <= out.value.loadMax
    ensures forall a :: (forall i :: 0 <= i < |ps| && Loads(ps[i]) ==> !InRange(a, ps[i].vaddr, ps[i].memsz)) ==>
              ByteAt(mem.view.data, a) == ByteAt(old(mem.view).data, a)
  {
    hide FileHeader, Listed, Runnable, Decision, MapAll, MappingStatus, Hull, Present, StopsAt, Loads, Segments;
    hide Loaded, AllFit, ElfLoader.Clear;
    ghost var m, segs := mem.view, Loaded(ps, |ps|);
    ProgramDecided(img, h, ps, mem.capacity - |mem.regions|);
    ClearSegments(mem.regions, ps);
    LoadedCount(ps, |ps|);
    s, out := ElfLoader.Load(mem, img, true, allocs);
    Maps(m.regions, segs, allocs);
    assert segs[..|segs|] == segs;
    assert mem.view == MapAll(m, img, segs);
    HeaderFields(img, h);
    forall i | 0 <= i < |ps| && Loads(ps[i])
      ensures Sound(ps[i], |img|) && Present(mem.view, img, ps[i])
      ensures out.value.loadMin <= ps[i].vaddr && ps[i].vaddr + ps[i].memsz <= out.value.loadMax
    {
      EachSound(ps, |img|, i);
      IsPresent(m, img, h, ps, i);
      LoadedGrows(ps, i, |ps|);
      InHull(segs, out.value.loadMin, out.value.loadMax, |Loaded(ps, i)|);
    }
    forall a | forall i :: 0 <= i < |ps| && Loads(ps[i]) ==> !InRange(a, ps[i].vaddr, ps[i].memsz)
      ensures ByteAt(mem.view.data, a) == ByteAt(m.data, a)
    {
      OutsideLoaded(ps, a);
      MapAllElsewhere(m, img, segs, a);
    }
  }

  lemma Maps(rs: seq<Region>, segs: seq<Segment>, allocs: nat)
    requires ClearOf(rs, segs) && |segs| <= allocs
    ensures MappingStatus(rs, segs, allocs) == OK && MappedCount(rs, segs, allocs) == |segs|
  {
  }

  lemma EachSound(ps: seq<Phdr>, size: nat, i: nat)
    requires Runnable(ps, size) && i < |ps| && Loads(ps[i])
    ensures Sound(ps[i], size)
  {
  }

  lemma InHull(segs: seq<Segment>, low: int, high: int, k: nat)
    requires Hull(segs, low, high) && k < |segs|
    ensures low <= segs[k].vaddr && segs[k].vaddr + segs[k].memsz <= high
  {
  }

  lemma {:induction false} LoadedCount(ps: seq<Phdr>, n: nat)
    requires n <= |ps|
    ensures |Loaded(ps, n)| <= n
  {
    if n > 0 {
      LoadedCount(ps, n - 1);
    }
  }

  /** All that is decided before the mapping. */
  lemma ProgramDecided(img: seq<u8>, h: Ehdr, ps: seq<Phdr>, room: int)
    requires FileHeader(img, h) && Native(h) && Listed(img, h, ps) && Runnable(ps, |img|) && |ps| <= room
    ensures HeaderCheck(img) == OK && Segments(img) == Loaded(ps, |ps|) && AllFit(img, Loaded(ps, |ps|))
    ensures Decision(img, room, true) == OK
  {
    hide FileHeader, Listed, HeaderCheck, Headers, Plan, LoadCount, Loaded, AllFit, PairwiseApart, Loads, Sound;
    PlanIsLoaded(img, h, ps, |ps|);
    CountIsLoaded(img, h, ps, |ps|);
    LoadedApart(ps, |img|);
    LoadedCount(ps, |ps|);
  }

  lemma ClearSegments(rs: seq<Region>, ps: seq<Phdr>)
    requires forall i, j :: 0 <= i < |ps| && Loads(ps[i]) && 0 <= j < |rs| ==>
               ps[i].vaddr + ps[i].memsz <= rs[j].base || rs[j].base + rs[j].size <= ps[i].vaddr
    ensures ClearOf(rs, Loaded(ps, |ps|))
  {
    hide Loaded, Loads;
    var segs := Loaded(ps, |ps|);
    forall k | 0 <= k < |segs| ensures ElfLoader.Clear(rs, segs[k]) {
      var i := LoadedFrom(ps, |ps|, k);
      forall j | 0 <= j < |rs| ensures Apart(RegionOf(segs[k]), rs[j]) {
      }
    }
  }

  lemma OutsideLoaded(ps: seq<Phdr>, a: int)
    requires forall i :: 0 <= i < |ps| && Loads(ps[i]) ==> !InRange(a, ps[i].vaddr, ps[i].memsz)
    ensures Outside(Loaded(ps, |ps|), a)
  {
    hide Loaded, Loads;
    var segs := Loaded(ps, |ps|);
    forall k | 0 <= k < |segs| ensures !InRange(a, segs[k].vaddr, segs[k].memsz) {
      var i := LoadedFrom(ps, |ps|, k);
    }
  }

  lemma IsPresent(m: Ram, img: seq<u8>, h: Ehdr, ps: seq<Phdr>, i: nat)
    requires FileHeader(img, h) && Native(h) && Listed(img, h, ps) && Runnable(ps, |img|) && i < |ps| && Loads(ps[i])
    requires Sound(ps[i], |img|)
    ensures HeaderCheck(img) == OK && AllFit(img, Segments(img))
    ensures Present(MapAll(m, img, Segments(img)), img, ps[i])
  {
    hide FileHeader, Listed, HeaderCheck, Headers, Loaded, Loads, MapAll, Segments, SegmentAt, Loadable, Plan;
    hide PairwiseApart;
    PlanIsLoaded(img, h, ps, |ps|);
    LoadedApart(ps, |img|);
    SegmentVerdict(img, h, ps, i);
    ProgramDecided(img, h, ps, |ps|);
    LoadIsExact(m, img, i);
    var s, data := SegmentOf(ps[i]), MapAll(m, img, Segments(img)).data;
    forall a | s.vaddr <= a < s.vaddr + s.memsz
      ensures a in data && data[a] == if a < s.vaddr + s.filesz then img[s.offset + (a - s.vaddr)] else 0
    {
      var k := a - s.vaddr;
      assert Holds(data, s.vaddr + k, Expected(img, s, k));
    }
  }
}
