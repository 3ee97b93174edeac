/** The flattened device tree byte format: structure tokens, the string block, and the blob around them. */
module TreeFormat {
  import opened Words

  type Text = seq<u8>

  /** Emitted items in document order; `Stray` is an END token written by a finish that then found no memory. */
  datatype Forest =
    | Empty
    | Prop(name: Text, value: seq<u8>, rest: Forest)
    | Node(name: Text, kids: Forest, rest: Forest)
    | Stray(rest: Forest)

  const BEGIN_NODE: nat := 1
  const END_NODE: nat := 2
  const PROP: nat := 3
  const END: nat := 9
  const MAGIC: nat := 0xD00DFEED
  const HEADER: nat := 40
  const STRUCT_AT: nat := 56
  const MAX_NAME: nat := 128

  /** A C string: NUL-free. */
  predicate IsText(s: Text) {
    0 !in s
  }

  function Pad4(n: nat): (r: nat)
    ensures n <= r < n + 4 && r % 4 == 0
  {
    (n + 3) / 4 * 4
  }

  function Zeros(n: nat): (z: seq<u8>)
    ensures |z| == n && forall i :: 0 <= i < n ==> z[i] == 0
  {
    seq(n, i => 0)
  }

  /** `bs` zero-filled to the next 4-byte boundary. */
  function Padded(bs: seq<u8>): (r: seq<u8>)
    ensures |r| == Pad4(|bs|) && r[..|bs|] == bs
  {
    bs + Zeros(Pad4(|bs|) - |bs|)
  }

  /** A 32-bit big-endian word of the low half of `v`. */
  function Be32(v: nat): (bs: seq<u8>)
    ensures |bs| == 4
  {
    [(v / 0x100_0000 % 0x100) as u8, (v / 0x1_0000 % 0x100) as u8, (v / 0x100 % 0x100) as u8, (v % 0x100) as u8]
  }

  function Word(b: seq<u8>, at: nat): (v: nat)
    requires at + 4 <= |b|
    ensures v < TWO32
  {
    b[at] as int * 0x100_0000 + b[at + 1] as int * 0x1_0000 + b[at + 2] as int * 0x100 + b[at + 3] as int
  }

  lemma WordBe32(b: seq<u8>, at: nat, v: nat)
    requires at + 4 <= |b| && b[at..at + 4] == Be32(v) && v < TWO32
    ensures Word(b, at) == v
  {
    var s := b[at..at + 4];
    FourDigits(v);
    assert s[0] == b[at] && s[1] == b[at + 1] && s[2] == b[at + 2] && s[3] == b[at + 3];
  }

  lemma FourDigits(v: nat)
    requires v < TWO32
    ensures v / 0x100_0000 % 0x100 == v / 0x100_0000
    ensures v == v / 0x100_0000 * 0x100_0000 + v / 0x1_0000 % 0x100 * 0x1_0000 + v / 0x100 % 0x100 * 0x100 + v % 0x100
  {
    var a, b := v / 0x100, v / 0x1_0000;
    assert a / 0x100 == b && b / 0x100 == v / 0x100_0000;
    assert v == a * 0x100 + v % 0x100 && a == b * 0x100 + a % 0x100 && b == b / 0x100 * 0x100 + b % 0x100;
  }

  function OpenBytes(name: Text): (bs: seq<u8>)
    ensures |bs| == 4 + Pad4(|name| + 1)
  {
    Be32(BEGIN_NODE) + Padded(name + [0])
  }

  function PropBytes(offset: nat, value: seq<u8>): (bs: seq<u8>)
    ensures |bs| == 12 + Pad4(|value|)
  {
    Be32(PROP) + Be32(|value|) + Be32(offset) + Padded(value)
  }

  function StringsOf(f: Forest): seq<u8> {
    match f
    case Empty => []
    case Prop(n, _, rest) => n + [0] + StringsOf(rest)
    case Node(_, kids, rest) => StringsOf(kids) + StringsOf(rest)
    case Stray(rest) => StringsOf(rest)
  }

  /** The structure block of `f` when `offset` string bytes precede its own. */
  function StructOf(f: Forest, offset: nat): seq<u8> {
    match f
    case Empty => []
    case Prop(n, v, rest) => PropBytes(offset, v) + StructOf(rest, offset + |n| + 1)
    case Node(n, kids, rest) =>
      OpenBytes(n) + StructOf(kids, offset) + Be32(END_NODE) + StructOf(rest, offset + |StringsOf(kids)|)
    case Stray(rest) => Be32(END) + StructOf(rest, offset)
  }

  predicate NamesAreText(f: Forest) {
    match f
    case Empty => true
    case Prop(n, _, rest) => IsText(n) && NamesAreText(rest)
    case Node(n, kids, rest) => IsText(n) && NamesAreText(kids) && NamesAreText(rest)
    case Stray(rest) => NamesAreText(rest)
  }

  /** Deepest nesting of nodes. */
  function Height(f: Forest): nat {
    match f
    case Empty => 0
    case Prop(_, _, rest) => Height(rest)
    case Node(_, kids, rest) => Max(1 + Height(kids), Height(rest))
    case Stray(rest) => Height(rest)
  }

  function Max(a: nat, b: nat): nat {
    if a < b then b else a
  }

  function Append(f: Forest, g: Forest): Forest {
    match f
    case Empty => g
    case Prop(n, v, rest) => Prop(n, v, Append(rest, g))
    case Node(n, kids, rest) => Node(n, kids, Append(rest, g))
    case Stray(rest) => Stray(Append(rest, g))
  }

  lemma {:induction false} AppendStrings(f: Forest, g: Forest)
    ensures StringsOf(Append(f, g)) == StringsOf(f) + StringsOf(g)
    ensures NamesAreText(f) && NamesAreText(g) ==> NamesAreText(Append(f, g))
  {
    match f
    case Empty =>
      assert StringsOf(g) == [] + StringsOf(g);
    case Prop(n, v, rest) =>
      AppendStrings(rest, g);
      assert n + [0] + (StringsOf(rest) + StringsOf(g)) == (n + [0] + StringsOf(rest)) + StringsOf(g);
    case Node(n, kids, rest) =>
      AppendStrings(rest, g);
      assert StringsOf(kids) + (StringsOf(rest) + StringsOf(g)) == (StringsOf(kids) + StringsOf(rest)) + StringsOf(g);
    case Stray(rest) =>
      AppendStrings(rest, g);
  }

  lemma Regroup(a: seq<u8>, b: seq<u8>, c: seq<u8>)
    ensures (a + b) + c == a + (b + c)
  {
  }

  /** Items appended to a forest are laid out after it, their names after its names. */
  lemma {:induction false} AppendStruct(f: Forest, g: Forest, offset: nat)
    ensures StructOf(Append(f, g), offset) == StructOf(f, offset) + StructOf(g, offset + |StringsOf(f)|)
  {
    hide Be32, PropBytes, OpenBytes;
    match f
    case Empty =>
      assert StructOf(g, offset) == [] + StructOf(g, offset);
    case Prop(n, v, rest) =>
      AppendStruct(rest, g, offset + |n| + 1);
      assert offset + |n| + 1 + |StringsOf(rest)| == offset + |StringsOf(f)|;
      Regroup(PropBytes(offset, v), StructOf(rest, offset + |n| + 1), StructOf(g, offset + |StringsOf(f)|));
    case Node(n, kids, rest) =>
      AppendStruct(rest, g, offset + |StringsOf(kids)|);
      assert offset + |StringsOf(kids)| + |StringsOf(rest)| == offset + |StringsOf(f)|;
      var head := OpenBytes(n) + StructOf(kids, offset) + Be32(END_NODE);
      Regroup(head, StructOf(rest, offset + |StringsOf(kids)|), StructOf(g, offset + |StringsOf(f)|));
    case Stray(rest) =>
      AppendStruct(rest, g, offset);
  }

  /** A string of 32-bit words. */
  function WordBytes(vs: seq<nat>): (bs: seq<u8>)
    ensures |bs| == 4 * |vs|
  {
    if vs == [] then [] else WordBytes(vs[..|vs| - 1]) + Be32(vs[|vs| - 1])
  }

  lemma {:induction false} WordBytesAt(vs: seq<nat>, k: nat)
    requires k < |vs|
    ensures WordBytes(vs)[4 * k..4 * k + 4] == Be32(vs[k])
  {
    hide Be32;
    var last := |vs| - 1;
    if k < last {
      WordBytesAt(vs[..last], k);
      assert WordBytes(vs)[4 * k..4 * k + 4] == WordBytes(vs[..last])[4 * k..4 * k + 4];
    }
  }

  /** The header words, from a structure block of `used` bytes and a string block of `names` bytes. */
  function HeaderWords(used: nat, names: nat): (vs: seq<nat>)
    ensures |vs| == 10
  {
    [MAGIC, STRUCT_AT + used + names, STRUCT_AT, STRUCT_AT + used, HEADER, 17, 16, 0, names, used]
  }

  /** The header and the empty reservation map behind it. */
  function HeaderBytes(used: nat, names: nat): (h: seq<u8>)
    ensures |h| == STRUCT_AT
  {
    WordBytes(HeaderWords(used, names)) + Zeros(16)
  }

  function Assembled(used: seq<u8>, names: seq<u8>): (b: seq<u8>)
    ensures |b| == STRUCT_AT + |used| + |names|
  {
    HeaderBytes(|used|, |names|) + used + names
  }

  /** The blob of a finished tree. */
  function Blob(f: Forest): seq<u8> {
    Assembled(StructOf(f, 0) + Be32(END), StringsOf(f))
  }

  /** Every header word of an assembled blob says what the blob holds. */
  lemma HeaderFields(used: seq<u8>, names: seq<u8>)
    requires STRUCT_AT + |used| + |names| < TWO32
    ensures
      var b := Assembled(used, names);
      && Word(b, 0) == MAGIC && Word(b, 4) == |b|
      && Word(b, 8) == STRUCT_AT && Word(b, 12) == STRUCT_AT + |used|
      && Word(b, 16) == HEADER && Word(b, 20) == 17 && Word(b, 24) == 16
      && Word(b, 32) == |names| && Word(b, 36) == |used|
      && b[STRUCT_AT..STRUCT_AT + |used|] == used && b[STRUCT_AT + |used|..] == names
  {
    hide WordBytes, Word, Zeros, Be32;
    var b, vs := Assembled(used, names), HeaderWords(|used|, |names|);
    forall k | 0 <= k < 10 ensures Word(b, 4 * k) == vs[k] {
      WordBytesAt(vs, k);
      PrefixSlice(WordBytes(vs), Zeros(16) + used + names, b, 4 * k);
      WordBe32(b, 4 * k, vs[k]);
    }
    assert Word(b, 4 * 0) == vs[0] && Word(b, 4 * 1) == vs[1] && Word(b, 4 * 2) == vs[2] && Word(b, 4 * 3) == vs[3];
    assert Word(b, 4 * 4) == vs[4] && Word(b, 4 * 5) == vs[5] && Word(b, 4 * 6) == vs[6];
    assert Word(b, 4 * 8) == vs[8] && Word(b, 4 * 9) == vs[9];
    BlocksFollow(HeaderBytes(|used|, |names|), used, names);
  }

  lemma PrefixSlice(head: seq<u8>, rest: seq<u8>, b: seq<u8>, at: nat)
    requires b == head + rest && at + 4 <= |head|
    ensures b[at..at + 4] == head[at..at + 4]
  {
  }

  lemma BlocksFollow(h: seq<u8>, used: seq<u8>, names: seq<u8>)
    ensures
      var b := h + used + names;
      b[|h|..|h| + |used|] == used && b[|h| + |used|..] == names
  {
  }
}
