/** The device tree blob byte by byte, as the Devicetree Specification lays it out, and what its reader refuses. */
module TreeMeaning {
  import opened Words
  import opened TreeFormat
  import opened TreeReader
  import opened TreeRoundTrip
  import TreeBuilder

  /** The low 32 bits of `v`, most significant byte first. */
  function BigEndian(v: nat): (bs: seq<u8>)
    ensures |bs| == 4
  {
    var low := ToBytes(v, 4);
    [low[3], low[2], low[1], low[0]]
  }

  lemma BigEndianIs(v: nat)
    ensures Be32(v) == BigEndian(v)
  {
    var a, b, c := v / 256, v / 256 / 256, v / 256 / 256 / 256;
    assert ToBytes(v, 4) == [(v % 256) as u8] + ToBytes(a, 3);
    assert ToBytes(a, 3) == [(a % 256) as u8] + ToBytes(b, 2);
    assert ToBytes(b, 2) == [(b % 256) as u8] + ToBytes(c, 1);
    assert b == v / 0x1_0000 && c == v / 0x100_0000;
  }

  /** NULs up to the next multiple of four. */
  predicate Fills(z: seq<u8>, n: nat) {
    |z| < 4 && (n + |z|) % 4 == 0 && forall i :: 0 <= i < |z| ==> z[i] == 0
  }

  /** FDT_BEGIN_NODE is 1, FDT_END_NODE 2: a node is its name, NUL-terminated and filled, then what is in it. */
  lemma NodeLayout(n: Text, kids: Forest, rest: Forest, offset: nat) returns (fill: seq<u8>)
    ensures Fills(fill, |n| + 1)
    ensures StructOf(Node(n, kids, rest), offset) ==
            [0, 0, 0, 1] + n + [0] + fill + StructOf(kids, offset) + [0, 0, 0, 2]
            + StructOf(rest, offset + |StringsOf(kids)|)
  {
    hide StructOf, StringsOf, Padded;
    fill := Zeros(Pad4(|n| + 1) - (|n| + 1));
    NodeParts(n, kids, rest, offset);
    PaddedIs(n + [0]);
    SmallTokens();
    assert [0, 0, 0, 1] + (n + [0] + fill) == [0, 0, 0, 1] + n + [0] + fill;
  }

  lemma NodeParts(n: Text, kids: Forest, rest: Forest, offset: nat)
    ensures StructOf(Node(n, kids, rest), offset) ==
            Be32(BEGIN_NODE) + Padded(n + [0]) + StructOf(kids, offset) + Be32(END_NODE)
            + StructOf(rest, offset + |StringsOf(kids)|)
  {
    hide Be32, Padded;
  }

  lemma PaddedIs(bs: seq<u8>)
    ensures Padded(bs) == bs + Zeros(Pad4(|bs|) - |bs|)
  {
  }

  lemma SmallTokens()
    ensures Be32(BEGIN_NODE) == [0, 0, 0, 1] && Be32(END_NODE) == [0, 0, 0, 2]
    ensures Be32(PROP) == [0, 0, 0, 3] && Be32(END) == [0, 0, 0, 9]
  {
  }

  /** FDT_PROP is 3: the length of the value, where its name is in the string block, and the value, filled. */
  lemma PropLayout(n: Text, v: seq<u8>, rest: Forest, offset: nat) returns (fill: seq<u8>)
    ensures Fills(fill, |v|)
    ensures StructOf(Prop(n, v, rest), offset) ==
            [0, 0, 0, 3] + BigEndian(|v|) + BigEndian(offset) + v + fill + StructOf(rest, offset + |n| + 1)
    ensures StringsOf(Prop(n, v, rest)) == n + [0] + StringsOf(rest)
  {
    hide StructOf, Padded, BigEndian;
    fill := Zeros(Pad4(|v|) - |v|);
    PropParts(n, v, rest, offset);
    PaddedIs(v);
    SmallTokens();
    BigEndianIs(|v|);
    BigEndianIs(offset);
    var head := [0, 0, 0, 3] + BigEndian(|v|) + BigEndian(offset);
    assert head + (v + fill) == head + v + fill;
  }

  lemma PropParts(n: Text, v: seq<u8>, rest: Forest, offset: nat)
    ensures StructOf(Prop(n, v, rest), offset) ==
            Be32(PROP) + Be32(|v|) + Be32(offset) + Padded(v) + StructOf(rest, offset + |n| + 1)
    ensures StringsOf(Prop(n, v, rest)) == n + [0] + StringsOf(rest)
  {
    hide Be32, Padded;
  }

  /** The blob of a tree: magic, total size, the offsets of the structure block, the strings and the reservation map,
      version 17 compatible with 16, boot CPU 0, the two sizes; an empty reservation map of sixteen bytes; the
      structure block, ended by FDT_END, 9; and the strings. */
  lemma BlobLayout(f: Forest)
    ensures
      var used, names := |StructOf(f, 0)| + 4, |StringsOf(f)|;
      Blob(f) ==
        [0xD0, 0x0D, 0xFE, 0xED] + BigEndian(56 + used + names) + BigEndian(56) + BigEndian(56 + used) + BigEndian(40)
        + BigEndian(17) + BigEndian(16) + BigEndian(0) + BigEndian(names) + BigEndian(used)
        + [0, 0, 0, 0, 0, 0, 0, 0, 0, 0, 0, 0, 0, 0, 0, 0] + (StructOf(f, 0) + [0, 0, 0, 9]) + StringsOf(f)
  {
    hide StructOf, StringsOf, BigEndian, Be32, WordBytes;
    var used, names := |StructOf(f, 0)| + 4, |StringsOf(f)|;
    SmallTokens();
    HeaderLayout(used, names);
    assert Zeros(16) == [0, 0, 0, 0, 0, 0, 0, 0, 0, 0, 0, 0, 0, 0, 0, 0];
  }

  lemma HeaderLayout(used: nat, names: nat)
    ensures WordBytes(HeaderWords(used, names)) ==
            [0xD0, 0x0D, 0xFE, 0xED] + BigEndian(56 + used + names) + BigEndian(56) + BigEndian(56 + used)
            + BigEndian(40) + BigEndian(17) + BigEndian(16) + BigEndian(0) + BigEndian(names) + BigEndian(used)
  {
    hide BigEndian, Be32, WordBytes;
    var vs: seq<nat> :=
      [0xD00D_FEED, 56 + used + names, 56, 56 + used, 40, 17, 16, 0, names, used];
    assert HeaderWords(used, names) == vs;
    assert Be32(0xD00D_FEED) == [0xD0, 0x0D, 0xFE, 0xED] by { Magic(); }
    NoWords();
    var k := 0;
    assert vs[..0] == [];
    WordStep(vs, 0);
    WordStep(vs, 1);
    WordStep(vs, 2);
    WordStep(vs, 3);
    WordStep(vs, 4);
    WordStep(vs, 5);
    WordStep(vs, 6);
    WordStep(vs, 7);
    WordStep(vs, 8);
    WordStep(vs, 9);
    assert vs[..10] == vs;
    assert [] + Be32(vs[0]) == Be32(vs[0]);
  }

  lemma NoWords()
    ensures WordBytes([]) == []
  {
  }

  lemma Magic()
    ensures Be32(0xD00D_FEED) == [0xD0, 0x0D, 0xFE, 0xED]
  {
  }

  lemma WordStep(vs: seq<nat>, k: nat)
    requires k < |vs|
    ensures WordBytes(vs[..k + 1]) == WordBytes(vs[..k]) + Be32(vs[k]) && Be32(vs[k]) == BigEndian(vs[k])
  {
    hide Be32, BigEndian;
    assert vs[..k + 1][..k] == vs[..k];
    BigEndianIs(vs[k]);
  }

  /** A word is read most significant byte first. */
  lemma WordMeans(b: seq<u8>, at: nat)
    requires at + 4 <= |b|
    ensures Word(b, at) == LittleEndian([b[at + 3], b[at + 2], b[at + 1], b[at]])
    ensures Word(b, at) == 0xD00D_FEED <==> b[at..at + 4] == [0xD0, 0x0D, 0xFE, 0xED]
  {
    FourBytes(b[at + 3], b[at + 2], b[at + 1], b[at]);
    assert b[at..at + 4] == [b[at], b[at + 1], b[at + 2], b[at + 3]];
  }

  lemma FourBytes(a: u8, b: u8, c: u8, d: u8)
    ensures LittleEndian([a, b, c, d]) == a as int + 0x100 * b as int + 0x1_0000 * c as int + 0x100_0000 * d as int
  {
    assert [a, b, c, d][1..] == [b, c, d] && [b, c, d][1..] == [c, d] && [c, d][1..] == [d];
    assert LittleEndian([d]) == d as int;
    assert LittleEndian([c, d]) == c as int + 0x100 * d as int;
    assert LittleEndian([b, c, d]) == b as int + 0x100 * c as int + 0x1_0000 * d as int;
  }

  /** What the size query says of any bytes: less than a header is an argument error, a wrong magic or a size that the
      buffer does not hold a format error. */
  lemma SizeVerdict(b: seq<u8>)
    ensures TreeBuilder.TotalSize(b).0 ==
            if |b| < 40 then INVALID_ARG
            else if b[..4] != [0xD0, 0x0D, 0xFE, 0xED] || LittleEndian([b[7], b[6], b[5], b[4]]) > |b| then FORMAT
            else OK
  {
    hide Word;
    if |b| >= 40 {
      WordMeans(b, 0);
      WordMeans(b, 4);
    }
  }

  // ----- paths and depth -----

  /** A path is its names, each after a '/'; the root is '/' alone. */
  lemma PathSpelled(steps: seq<Text>, name: Text)
    ensures PathOf([]) == [0x2F] && PathOf([name]) == [0x2F] + name
    ensures steps != [] ==> PathOf([name] + steps) == [0x2F] + name + PathOf(steps)
    ensures PathName(name) <==> name != [] && 0x2F !in name
  {
    assert ([name] + steps)[1..] == steps;
  }

  /** `k` nodes, each inside the one before. */
  function Nest(k: nat): Forest {
    if k == 0 then Empty else Node([0x6E], Nest(k - 1), Empty)
  }

  lemma {:induction false} NestHeight(k: nat)
    ensures Height(Nest(k)) == k
  {
    if k > 0 {
      NestHeight(k - 1);
    }
  }

  lemma {:induction false} NestSize(k: nat)
    ensures |StructOf(Nest(k), 0)| == 12 * k && StringsOf(Nest(k)) == []
    ensures NamesAreText(Nest(k)) && DistinctSiblings(Nest(k)) && NoStray(Nest(k))
  {
    if k > 0 {
      NestSize(k - 1);
      assert |OpenBytes([0x6E])| == 8;
      assert StringsOf(Nest(k - 1)) + StringsOf(Empty) == [];
    }
  }

  /** Such trees are among those of the round trip, 32 levels of them included. */
  lemma NestReadable(k: nat)
    requires k <= 32
    ensures Readable(Nest(k)) && DistinctSiblings(Nest(k)) && NoStray(Nest(k))
  {
    NestHeight(k);
    NestSize(k);
  }

  /** The reader follows a node below fewer than 32 open ones, and gives up at one below 32. */
  lemma DepthBound(b: seq<u8>, p: nat, n: Text, stack: seq<Frame>, path: Text, prop: Text, strings: nat)
    requires Lies(b, p, OpenBytes(n)) && IsText(n)
    ensures |stack| >= 32 ==> Scan(b, p, stack, path, prop, strings) == Malformed
    ensures |stack| < 32 ==>
              Scan(b, p, stack, path, prop, strings) ==
              Scan(b, p + |OpenBytes(n)|, stack + [Enter(Top(stack), n, path)], path, prop, strings)
  {
    hide Be32, Word, TextLength, TextAt, Enter, Top, Pad4;
    OpenToken(b, p, n);
  }

  lemma {:induction false} NestScan(b: seq<u8>, p: nat, k: nat, stack: seq<Frame>, path: Text, prop: Text, strings: nat)
    requires Placed(b, p, Nest(k), 0, strings) && |stack| <= 32 < |stack| + k
    ensures Scan(b, p, stack, path, prop, strings) == Malformed
    decreases k
  {
    hide Placed, Scan, OpenBytes, Lies, Enter, Top;
    PlacedNode(b, p, [0x6E], Nest(k - 1), Empty, 0, strings);
    DepthBound(b, p, [0x6E], stack, path, prop, strings);
    if |stack| < 32 {
      NestScan(b, p + |OpenBytes([0x6E])|, k - 1, stack + [Enter(Top(stack), [0x6E], path)], path, prop, strings);
    }
  }

  /** So a tree nested deeper than the 32 levels `FindsExactly` asks for is refused, whatever is looked up. */
  lemma TooDeep(k: nat, path: Text, prop: Text)
    requires k > 32 && |Blob(Nest(k))| < 0x1_0000_0000
    ensures Height(Nest(k)) == k && Find(Blob(Nest(k)), path, prop) == Malformed
  {
    hide Scan, StructOf, StringsOf, Be32, Word, Assembled, Nest;
    NestHeight(k);
    var f := Nest(k);
    var used := StructOf(f, 0) + Be32(END);
    HeaderFields(used, StringsOf(f));
    BlobPlaces(f);
    NestScan(Blob(f), 56, k, [], path, prop, 56 + |used|);
  }

  lemma BlobPlaces(f: Forest)
    requires |Blob(f)| < 0x1_0000_0000
    ensures Placed(Blob(f), 56, f, 0, 56 + |StructOf(f, 0)| + 4)
  {
    hide StructOf, StringsOf, Be32, Word, Assembled;
    var used, names := StructOf(f, 0) + Be32(END), StringsOf(f);
    HeaderFields(used, names);
    var b := Blob(f);
    assert Lies(b, 56, used);
    LiesParts(b, 56, StructOf(f, 0), Be32(END));
  }
}
