/** The region table over host blocks, and its refinement of the flat map of module FlatMemory. */
module GuestMemory {
  import opened Words
  import opened FlatMemory

  predicate InRange(x: int, base: int, size: int) {
    base <= x < base + size
  }

  /** Range overlap written without a sum, as the table's code does. */
  predicate RangesOverlap(a: u64, aSize: u64, b: u64, bSize: u64) {
    if a <= b then b - a < aSize else a - b < bSize
  }

  /** The wrap-free test is exactly intersection of the two integer ranges. */
  lemma RangesOverlapMeaning(a: u64, aSize: u64, b: u64, bSize: u64)
    requires aSize > 0 && bSize > 0
    ensures RangesOverlap(a, aSize, b, bSize) <==> exists x :: InRange(x, a, aSize) && InRange(x, b, bSize)
    ensures RangesOverlap(a, aSize, b, bSize) <==> !(a + aSize <= b || b + bSize <= a)
  {
    if RangesOverlap(a, aSize, b, bSize) {
      var x := if a <= b then b else a;
      assert InRange(x, a, aSize) && InRange(x, b, bSize);
    }
  }

  function CheckMapArgs(base: u64, size: u64, perms: Perms): (s: Status)
    ensures s == OK <==> size > 0 && perms != NONE && base + size <= TWO64
  {
    if size == 0 || perms == NONE then INVALID_ARG
    else if size - 1 > (TWO64 - 1) - base then OVERFLOW
    else OK
  }

  predicate AllApart(r: Region, rs: seq<Region>) {
    forall i {:trigger Apart(r, rs[i])} :: 0 <= i < |rs| ==> Apart(r, rs[i])
  }

  /** The verdict on a new region, in the code's order: its arguments, then a free slot and no overlap. */
  function RoomStatus(rs: seq<Region>, capacity: nat, base: u64, size: u64, perms: Perms): Status {
    if CheckMapArgs(base, size, perms) != OK then CheckMapArgs(base, size, perms)
    else if |rs| >= capacity || !AllApart(Region(base, size, perms), rs) then RANGE
    else OK
  }

  /** The verdict on mapping a block with `count` bytes of contents. */
  function MapStatus(rs: seq<Region>, capacity: nat, r: Region, count: nat, allocOk: bool): Status {
    var room := RoomStatus(rs, capacity, r.base, r.size, r.perms);
    if room != OK then room
    else if count > r.size then INVALID_ARG
    else if !allocOk then NO_MEMORY
    else OK
  }

  /** What mapping one region does to the abstract memory. */
  function MapRegion(m: Ram, base: u64, size: u64, perms: Perms, contents: seq<u8>): Ram
    requires |contents| <= size
  {
    Ram(m.regions + [Region(base, size, perms)],
        m.data + (map a: int | base <= a < base + size && InRange(a, base, size) ::
                    if a - base < |contents| then contents[a - base] else 0))
  }

  lemma MapRegionWellFormed(m: Ram, base: u64, size: u64, perms: Perms, contents: seq<u8>)
    requires WellFormed(m) && |contents| <= size
    requires size > 0 && perms != NONE && base + size <= TWO64
    requires AllApart(Region(base, size, perms), m.regions)
    ensures WellFormed(MapRegion(m, base, size, perms, contents))
  {
    var r := Region(base, size, perms);
    var m' := MapRegion(m, base, size, perms, contents);
    assert m'.regions[|m.regions|] == r;
    forall a {:trigger Mapped(m'.regions, a)} ensures a in m'.data <==> Mapped(m'.regions, a) {
      assert a in m.data <==> Mapped(m.regions, a);
      if Mapped(m'.regions, a) {
        var i :| 0 <= i < |m'.regions| && Covers(m'.regions[i], a, 1, NONE);
        assert i < |m.regions| ==> Covers(m.regions[i], a, 1, NONE);
      }
      if Mapped(m.regions, a) {
        var i :| 0 <= i < |m.regions| && Covers(m.regions[i], a, 1, NONE);
        assert Covers(m'.regions[i], a, 1, NONE);
      } else if InRange(a, base, size) {
        assert Covers(m'.regions[|m.regions|], a, 1, NONE);
      }
    }
    forall i, j | 0 <= i < j < |m'.regions| ensures Apart(m'.regions[i], m'.regions[j]) {
      assert j < |m.regions| ==> Apart(m.regions[i], m.regions[j]);
      assert j == |m.regions| ==> Apart(r, m.regions[i]);
    }
  }

  /** Little-endian join of host bytes, the loop the readers use. */
  method Disassemble(src: seq<u8>) returns (value: nat)
    ensures value == LittleEndian(src)
  {
    value := 0;
    var i := |src|;
    while i > 0
      invariant 0 <= i <= |src|
      invariant value == LittleEndian(src[i..])
    {
      i := i - 1;
      assert src[i..][1..] == src[i + 1..];
      value := src[i] as int + 256 * value;
    }
  }

  predicate Holds(data: map<int, u8>, a: int, v: u8) {
    a in data && data[a] == v
  }

  /** The flat bytes of region `r` are those of its host block. */
  ghost predicate Backs(data: map<int, u8>, r: Region, block: seq<u8>) {
    && |block| == r.size
    && forall k :: 0 <= k < |block| ==> Holds(data, r.base + k, block[k])
  }

  lemma MapRegionBacks(m: Ram, base: u64, size: u64, perms: Perms, contents: seq<u8>, block: seq<u8>)
    requires WellFormed(m) && |contents| <= size && |block| == size
    requires AllApart(Region(base, size, perms), m.regions)
    requires forall k :: 0 <= k < size ==> block[k] == if k < |contents| then contents[k] else 0
    ensures
      var data' := MapRegion(m, base, size, perms, contents).data;
      && Backs(data', Region(base, size, perms), block)
      && forall i, b :: 0 <= i < |m.regions| && Backs(m.data, m.regions[i], b) ==> Backs(data', m.regions[i], b)
  {
    var data' := MapRegion(m, base, size, perms, contents).data;
    forall i, b | 0 <= i < |m.regions| && Backs(m.data, m.regions[i], b) ensures Backs(data', m.regions[i], b) {
      assert Apart(Region(base, size, perms), m.regions[i]);
    }
  }

  lemma PutBacks(m: Ram, i: nat, off: nat, bs: seq<u8>, block: seq<u8>, block': seq<u8>, j: nat, other: seq<u8>)
    requires WellFormed(m) && i < |m.regions| && j < |m.regions|
    requires Backs(m.data, m.regions[i], block) && Backs(m.data, m.regions[j], other)
    requires off + |bs| <= |block| == |block'|
    requires forall k :: 0 <= k < |block| ==> block'[k] == if off <= k < off + |bs| then bs[k - off] else block[k]
    ensures
      var data' := Put(m.data, m.regions[i].base + off, bs);
      && Backs(data', m.regions[i], block')
      && (i != j ==> Backs(data', m.regions[j], other))
  {
    var base, data' := m.regions[i].base, Put(m.data, m.regions[i].base + off, bs);
    forall k | 0 <= k < |block'| ensures Holds(data', base + k, block'[k]) {
      assert Holds(m.data, base + k, block[k]);
    }
    assert i < j ==> Apart(m.regions[i], m.regions[j]);
    assert j < i ==> Apart(m.regions[j], m.regions[i]);
  }

  lemma PutBacksAll(m: Ram, i: nat, a: int, off: nat, bs: seq<u8>, blocks: seq<seq<u8>>, block': seq<u8>)
    requires WellFormed(m) && i < |m.regions| == |blocks|
    requires forall j :: 0 <= j < |blocks| ==> Backs(m.data, m.regions[j], blocks[j])
    requires a == m.regions[i].base + off && off + |bs| <= |blocks[i]| == |block'|
    requires forall k :: 0 <= k < |block'| ==> block'[k] == if off <= k < off + |bs| then bs[k - off] else blocks[i][k]
    ensures forall j :: 0 <= j < |blocks| ==> Backs(Put(m.data, a, bs), m.regions[j], blocks[i := block'][j])
  {
    forall j | 0 <= j < |blocks| ensures Backs(Put(m.data, a, bs), m.regions[j], blocks[i := block'][j])
    {
      PutBacks(m, i, off, bs, blocks[i], block', j, blocks[j]);
    }
  }

  lemma BackedLoad(m: Ram, i: nat, block: seq<u8>, a: u64, n: nat)
    requires WellFormed(m) && i < |m.regions| && Covers(m.regions[i], a, n, READ)
    requires Backs(m.data, m.regions[i], block)
    ensures Load(m, a, n) == Some(LittleEndian(block[a - m.regions[i].base .. a - m.regions[i].base + n]))
    ensures Load(m, a, n).value < Pow256(n)
  {
    CoveredBytesMapped(m, a, n, READ);
    var bytes := block[a - m.regions[i].base .. a - m.regions[i].base + n];
    assert Bytes(m.data, a, n) == bytes;
    LittleEndianBound(bytes);
  }

  class AddressSpace {
    var regions: seq<Region>
    var hosts: seq<array<u8>>
    const capacity: nat
    /** The flat memory the table and its host blocks stand for. */
    ghost var view: Ram

    ghost predicate Valid()
      reads this, hosts
    {
      && |hosts| == |regions| <= capacity
      && WellFormed(view) && view.regions == regions
      && (forall i, j :: 0 <= i < j < |hosts| ==> hosts[i] != hosts[j])
      && forall i :: 0 <= i < |hosts| ==> Backs(view.data, regions[i], hosts[i][..])
    }

    constructor (capacity: nat)
      ensures Valid() && regions == [] && this.capacity == capacity
    {
      this.capacity := capacity;
      regions, hosts := [], [];
      view := Ram([], map[]);
    }

    /** First region that contains the range and grants the permissions; no sum is ever formed. */
    method Find(a: u64, size: u64, perms: Perms) returns (found: Option<nat>)
      requires Valid()
      ensures found.Some? ==> found.value < |regions| && size > 0 && Covers(regions[found.value], a, size, perms)
      ensures found.None? ==> size == 0 || !Covered(regions, a, size, perms)
    {
      if size == 0 {
        return None;
      }
      var i := 0;
      while i < |regions|
        invariant 0 <= i <= |regions|
        invariant forall j :: 0 <= j < i ==> !Covers(regions[j], a, size, perms)
      {
        var r := regions[i];
        if Grants(r.perms, perms) && r.base <= a {
          var off := a - r.base;
          if off < r.size && size <= r.size - off {
            return Some(i);
          }
        }
        i := i + 1;
      }
      return None;
    }

    /** The checks a mapping passes before anything is allocated. */
    method CheckRoom(base: u64, size: u64, perms: Perms) returns (s: Status)
      requires Valid()
      ensures s == RoomStatus(regions, capacity, base, size, perms)
    {
      s := CheckMapArgs(base, size, perms);
      if s != OK {
        return;
      }
      if |regions| >= capacity {
        return RANGE;
      }
      var i := 0;
      while i < |regions|
        invariant 0 <= i <= |regions|
        invariant forall j :: 0 <= j < i ==> Apart(Region(base, size, perms), regions[j])
      {
        RangesOverlapMeaning(base, size, regions[i].base, regions[i].size);
        if RangesOverlap(base, size, regions[i].base, regions[i].size) {
          assert !Apart(Region(base, size, perms), regions[i]);
          return RANGE;
        }
        i := i + 1;
      }
    }

    /** Installs one owned region: zero-filled, then `contents` copied over its start. */
    method MapImage(base: u64, size: u64, perms: Perms, contents: seq<u8>, allocOk: bool) returns (s: Status)
      requires Valid()
      modifies this
      ensures Valid()
      ensures s == MapStatus(old(regions), capacity, Region(base, size, perms), |contents|, allocOk)
      ensures s == OK ==>
                && |contents| <= size && view == MapRegion(old(view), base, size, perms, contents)
                && |hosts| == |old(hosts)| + 1 && hosts[..|old(hosts)|] == old(hosts) && fresh(hosts[|old(hosts)|])
      ensures s != OK ==> regions == old(regions) && hosts == old(hosts) && view == old(view)
    {
      s := CheckRoom(base, size, perms);
      if s != OK {
        return;
      }
      if |contents| > size {
        return INVALID_ARG;
      }
      if !allocOk {
        return NO_MEMORY;
      }
      var block := new u8[size](k => 0);
      forall k | 0 <= k < |contents| {
        block[k] := contents[k];
      }
      MapRegionWellFormed(view, base, size, perms, contents);
      MapRegionBacks(view, base, size, perms, contents, block[..]);
      ghost var data := MapRegion(view, base, size, perms, contents).data;
      forall j | 0 <= j < |hosts| ensures Backs(data, regions[j], hosts[j][..]) {
        assert hosts[j][..] == old(hosts[j][..]);
      }
      regions := regions + [Region(base, size, perms)];
      hosts := hosts + [block];
      view := MapRegion(view, base, size, perms, contents);
      forall j | 0 <= j < |hosts| ensures Backs(view.data, regions[j], hosts[j][..]) {
        assert j < |old(hosts)| ==> Backs(data, old(regions)[j], old(hosts)[j][..]);
      }
    }

    method Validate(a: u64, size: u64, perms: Perms) returns (s: Status)
      requires Valid()
      ensures size == 0 ==> s == INVALID_ARG
      ensures size > 0 ==> s == if Covered(regions, a, size, perms) then OK else FAULT
    {
      if size == 0 {
        return INVALID_ARG;
      }
      var r := Find(a, size, perms);
      return if r.Some? then OK else FAULT;
    }

    /** Little-endian load of 1, 2, 4 or 8 bytes, optionally sign-extended to 64 bits. */
    method Read(a: u64, n: nat, signExtend: bool) returns (s: Status, value: u64)
      requires Valid() && TransferSize(n)
      ensures s == if Load(view, a, n).Some? then OK else FAULT
      ensures s == OK ==>
                && Load(view, a, n).value < Pow256(n) <= TWO64
                && value == if signExtend then SignExtend(Load(view, a, n).value, n) else Load(view, a, n).value
    {
      TransferFits(n);
      var r := Find(a, n, READ);
      if r.None? {
        return FAULT, 0;
      }
      ghost var loaded := Load(view, a, n);
      BackedLoad(view, r.value, hosts[r.value][..], a, n);
      var off := a - regions[r.value].base;
      assert hosts[r.value][off..off + n] == hosts[r.value][..][off..off + n];
      var v := Disassemble(hosts[r.value][off..off + n]);
      assert loaded == Some(v);
      s, value := OK, if signExtend then SignExtend(v, n) else v;
    }

    /** Little-endian store of the low `n` bytes of `value`. */
    method Write(a: u64, n: nat, value: u64) returns (s: Status)
      requires Valid() && TransferSize(n)
      modifies this`view, hosts
      ensures Valid()
      ensures s == if Store(old(view), a, n, value).Some? then OK else FAULT
      ensures view == if s == OK then Store(old(view), a, n, value).value else old(view)
    {
      var r := Find(a, n, WRITE);
      if r.None? {
        return FAULT;
      }
      var i := r.value;
      var off := a - regions[i].base;
      var bytes := ToBytes(value, n);
      ghost var blocks := seq(|hosts|, j requires 0 <= j < |hosts| reads this, hosts => hosts[j][..]);
      forall k | 0 <= k < n {
        hosts[i][off + k] := bytes[k];
      }
      PutBacksAll(view, i, a, off, bytes, blocks, hosts[i][..]);
      forall j | 0 <= j < |hosts| ensures Backs(Put(view.data, a, bytes), regions[j], hosts[j][..]) {
        assert j != i ==> hosts[j] != hosts[i];
        assert hosts[j][..] == blocks[i := hosts[i][..]][j];
      }
      StoreKeepsWellFormed(view, a, bytes);
      view := view.(data := Put(view.data, a, bytes));
      return OK;
    }
  }
}
