/** Physical memory as a layout of permissioned regions over one flat byte map. */
module FlatMemory {
  import opened Words

  datatype Perms = Perms(read: bool, write: bool, exec: bool)

  const NONE := Perms(false, false, false)
  const READ := Perms(true, false, false)
  const WRITE := Perms(false, true, false)

  predicate Grants(have: Perms, need: Perms) {
    (need.read ==> have.read) && (need.write ==> have.write) && (need.exec ==> have.exec)
  }

  datatype Region = Region(base: u64, size: u64, perms: Perms)

  /** `data` holds one byte for every mapped address and nothing else. */
  datatype Ram = Ram(regions: seq<Region>, data: map<int, u8>)

  predicate Covers(r: Region, a: int, n: int, p: Perms) {
    r.base <= a && a + n <= r.base + r.size && Grants(r.perms, p)
  }

  /** Some single region holds all of [a, a+n) and grants `p`. */
  predicate Covered(rs: seq<Region>, a: int, n: int, p: Perms) {
    exists i {:trigger Covers(rs[i], a, n, p)} :: 0 <= i < |rs| && Covers(rs[i], a, n, p)
  }

  predicate Mapped(rs: seq<Region>, a: int) {
    Covered(rs, a, 1, NONE)
  }

  predicate Apart(r: Region, s: Region) {
    r.base + r.size <= s.base || s.base + s.size <= r.base
  }

  predicate LegalTable(rs: seq<Region>) {
    && (forall i :: 0 <= i < |rs| ==> rs[i].size > 0 && rs[i].perms != NONE && rs[i].base + rs[i].size <= TWO64)
    && (forall i, j {:trigger Apart(rs[i], rs[j])} :: 0 <= i < j < |rs| ==> Apart(rs[i], rs[j]))
  }

  ghost predicate WellFormed(m: Ram) {
    && LegalTable(m.regions)
    && (forall a {:trigger Mapped(m.regions, a)} :: a in m.data <==> Mapped(m.regions, a))
  }

  function ByteAt(data: map<int, u8>, a: int): u8 {
    if a in data then data[a] else 0
  }

  function Bytes(data: map<int, u8>, a: int, n: nat): (bs: seq<u8>)
    ensures |bs| == n
    ensures forall k :: 0 <= k < n ==> bs[k] == ByteAt(data, a + k)
  {
    seq(n, k requires 0 <= k < n => ByteAt(data, a + k))
  }

  /** `data` with the bytes from `a` on replaced by `bs`. */
  function Put(data: map<int, u8>, a: int, bs: seq<u8>): (d: map<int, u8>)
    ensures d.Keys == data.Keys
    ensures forall k :: k in data ==> d[k] == if a <= k < a + |bs| then bs[k - a] else data[k]
  {
    map k | k in data :: if a <= k < a + |bs| then bs[k - a] else data[k]
  }

  lemma CoveredBytesMapped(m: Ram, a: int, n: nat, p: Perms)
    requires WellFormed(m) && Covered(m.regions, a, n, p)
    ensures forall k :: a <= k < a + n ==> k in m.data
  {
    var i :| 0 <= i < |m.regions| && Covers(m.regions[i], a, n, p);
    forall k | a <= k < a + n ensures k in m.data {
      assert Covers(m.regions[i], k, 1, NONE) && Mapped(m.regions, k);
    }
  }

  /** A whole covered range covers each of its parts. */
  lemma CoveredPart(rs: seq<Region>, a: int, n: nat, p: Perms, b: int, k: nat)
    requires Covered(rs, a, n, p) && a <= b && b + k <= a + n
    ensures Covered(rs, b, k, p)
  {
    var i :| 0 <= i < |rs| && Covers(rs[i], a, n, p);
    assert Covers(rs[i], b, k, p);
  }

  /** The bus read: an unsigned little-endian value, or nothing on a fault. */
  function Load(m: Ram, a: int, n: nat): Option<nat> {
    if Covered(m.regions, a, n, READ) then Some(LittleEndian(Bytes(m.data, a, n))) else None
  }

  /** The bus write of the low `n` bytes of `v`, or nothing on a fault. */
  function Store(m: Ram, a: int, n: nat, v: nat): Option<Ram> {
    if Covered(m.regions, a, n, WRITE) then Some(m.(data := Put(m.data, a, ToBytes(v, n)))) else None
  }

  lemma StoreKeepsWellFormed(m: Ram, a: int, bs: seq<u8>)
    requires WellFormed(m)
    ensures WellFormed(m.(data := Put(m.data, a, bs)))
  {
  }

  /** Replicates the top bit of an n-byte value through bit 63. */
  function SignExtend(v: nat, n: nat): (r: nat)
    requires v < Pow256(n) <= TWO64
    ensures r < TWO64
  {
    if 2 * v >= Pow256(n) then v + TWO64 - Pow256(n) else v
  }

  /** Sign extension keeps the signed value while widening the word. */
  lemma SignExtendMeaning(v: nat, n: nat)
    requires v < Pow256(n) <= TWO64
    ensures Signed(SignExtend(v, n), TWO64) == Signed(v, Pow256(n))
  {
  }

  /** Reading back what was just stored gives the stored low bytes. */
  lemma LoadStored(m: Ram, a: int, n: nat, v: nat)
    requires WellFormed(m) && Store(m, a, n, v).Some? && Covered(m.regions, a, n, READ)
    ensures Load(Store(m, a, n, v).value, a, n) == Some(v % Pow256(n))
  {
    var m' := Store(m, a, n, v).value;
    CoveredBytesMapped(m, a, n, READ);
    assert Bytes(m'.data, a, n) == ToBytes(v, n);
    LittleEndianRoundTrip(v, n);
  }

  /** A store leaves every load of a range it does not meet as it was, faults included. */
  lemma LoadApart(m: Ram, a: int, n: nat, v: nat, b: int, k: nat)
    requires Store(m, a, n, v).Some? && (b + k <= a || a + n <= b)
    ensures Load(Store(m, a, n, v).value, b, k) == Load(m, b, k)
  {
    assert Bytes(Store(m, a, n, v).value.data, b, k) == Bytes(m.data, b, k);
  }

  /** Byte `i` of a range at `b` after `bs` was stored at `a`. */
  function Overlaid(data: map<int, u8>, a: int, bs: seq<u8>, b: int, i: nat): u8 {
    if a <= b + i < a + |bs| then bs[b + i - a] else ByteAt(data, b + i)
  }

  /** Read over write for every overlap: a load sees the stored bytes where the ranges meet and the old ones
      elsewhere. */
  lemma LoadOverStore(m: Ram, a: int, n: nat, v: nat, b: int, k: nat)
    requires WellFormed(m) && Store(m, a, n, v).Some? && Covered(m.regions, b, k, READ)
    ensures Load(Store(m, a, n, v).value, b, k)
         == Some(LittleEndian(seq(k, i requires 0 <= i < k => Overlaid(m.data, a, ToBytes(v, n), b, i))))
  {
    hide Covered, ToBytes, LittleEndian;
    var m' := Store(m, a, n, v).value;
    CoveredBytesMapped(m, b, k, READ);
    var mixed := seq(k, i requires 0 <= i < k => Overlaid(m.data, a, ToBytes(v, n), b, i));
    forall i | 0 <= i < k ensures Bytes(m'.data, b, k)[i] == mixed[i] {
      assert b + i in m.data;
    }
    assert Bytes(m'.data, b, k) == mixed;
  }

  /** A store changes exactly its own bytes, and keeps the layout and the map well formed. */
  lemma StoreChanges(m: Ram, a: int, n: nat, v: nat)
    requires WellFormed(m) && Store(m, a, n, v).Some?
    ensures
      var m' := Store(m, a, n, v).value;
      && WellFormed(m') && m'.regions == m.regions && m'.data.Keys == m.data.Keys
      && (forall x :: x in m.data ==> m'.data[x] == if a <= x < a + n then ToBytes(v, n)[x - a] else m.data[x])
      && (forall x {:trigger x in m.data} :: a <= x < a + n ==> x in m.data)
  {
    StoreKeepsWellFormed(m, a, ToBytes(v, n));
    CoveredBytesMapped(m, a, n, WRITE);
  }

  /** At most one region of a legal table can serve a non-empty access. */
  lemma HolderUnique(rs: seq<Region>, a: int, n: nat, i: nat, j: nat)
    requires LegalTable(rs) && n > 0 && i < |rs| && j < |rs|
    requires Covers(rs[i], a, n, NONE) && Covers(rs[j], a, n, NONE)
    ensures i == j
  {
    assert i < j ==> Apart(rs[i], rs[j]);
    assert j < i ==> Apart(rs[j], rs[i]);
  }
}
