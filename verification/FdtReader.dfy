/** The read-back walk over a device tree blob, and the round trip through the emitted format. */
module TreeReader {
  import opened Words
  import opened TreeFormat

  /** One open node on the reader's stack; `Outside` stands for no open node. */
  datatype Frame = Outside | Inside(pos: nat, matched: bool, target: bool)

  const DEAD := Inside(0, false, false)

  /** `Astray` stands for a name comparison that reads past the end of the blob, which the code does not guard. */
  datatype Found = Found(at: nat, len: nat) | NotFound | Malformed | Refused | Astray

  /** The reader's frame stack holds this many open nodes. */
  const DEEPEST: nat := 32

  predicate IsTarget(f: Frame) {
    f.Inside? && f.target
  }

  function Top(stack: seq<Frame>): Frame {
    if stack == [] then Outside else stack[|stack| - 1]
  }

  /** Length of the NUL-free run at `at`, bounded by the buffer. */
  function TextLength(b: seq<u8>, at: nat): (n: nat)
    ensures at <= |b| ==> at + n <= |b| && 0 !in b[at..at + n] && (at + n < |b| ==> b[at + n] == 0)
    decreases |b| - at
  {
    if at < |b| && b[at] != 0 then 1 + TextLength(b, at + 1) else 0
  }

  function TextAt(b: seq<u8>, at: nat): Text {
    if at <= |b| then b[at..at + TextLength(b, at)] else []
  }

  lemma {:induction false} TextStored(b: seq<u8>, at: nat, s: Text)
    requires at + |s| < |b| && b[at..at + |s|] == s && b[at + |s|] == 0 && IsText(s)
    decreases |s|
    ensures TextLength(b, at) == |s| && TextAt(b, at) == s
  {
    if s != [] {
      assert b[at] == s[0] && b[at + 1..at + |s|] == s[1..];
      assert s[0] in s;
      TextStored(b, at + 1, s[1..]);
    }
  }

  /** Length of the path component that starts at `start`. */
  function ComponentLength(path: Text, start: nat): (n: nat)
    ensures start <= |path| ==> start + n <= |path| && (start + n < |path| ==> path[start + n] == SLASH)
    decreases |path| - start
  {
    if start < |path| && path[start] != SLASH then 1 + ComponentLength(path, start + 1) else 0
  }

  const SLASH: u8 := 47

  /** The frame of a node named `name` opened below `parent`. */
  function Enter(parent: Frame, name: Text, path: Text): (f: Frame)
    ensures f.Inside?
  {
    if parent.Outside? then
      if name != [] then DEAD
      else if |path| == 1 then Inside(1, true, true)
      else Inside(0, true, false)
    else if parent.target || !parent.matched then DEAD
    else
      var start := parent.pos + 1;
      if start > |path| then DEAD else
      var n := ComponentLength(path, start);
      if name == path[start..start + n] then Inside(start + n, true, start + n == |path|) else DEAD
  }

  /** A stored name ends inside the blob. */
  predicate EndsInside(b: seq<u8>, at: nat) {
    at < |b| && 0 in b[at..]
  }

  /** Comparing the name at `at` with `prop` reads on past the end of the blob: it starts there, or nothing before the
      end stops it, neither a NUL nor a difference. */
  predicate RunsPast(b: seq<u8>, at: nat, prop: Text) {
    at >= |b| || (0 !in b[at..] && b[at..] <= prop)
  }

  /** What one token makes the walk do: stop, move on, or compare the name at `at` of a value of the target. */
  datatype Turn = Stop(r: Found) | Move(next: nat, stack: seq<Frame>)
    | Compare(at: nat, value: nat, len: nat, next: nat)

  /** The offset of a property's name is checked in 32 bits and followed without wrapping. */
  function TurnAt(b: seq<u8>, p: nat, stack: seq<Frame>, path: Text, strings: nat): (t: Turn)
    requires p + 4 <= |b|
    ensures !t.Stop? ==> t.next > p
  {
    var token := Word(b, p);
    if token == END then Stop(NotFound)
    else if token == END_NODE then
      if stack == [] then Move(p + 4, stack)
      else if IsTarget(Top(stack)) then Stop(NotFound)
      else Move(p + 4, stack[..|stack| - 1])
    else if token == BEGIN_NODE then
      var n := TextLength(b, p + 4);
      if p + 4 + Pad4(n + 1) > |b| || |stack| >= DEEPEST then Stop(Malformed)
      else Move(p + 4 + Pad4(n + 1), stack + [Enter(Top(stack), b[p + 4..p + 4 + n], path)])
    else if token == PROP then
      if p + 16 > |b| then Stop(Malformed) else
      var len, name := Word(b, p + 4), Word(b, p + 8);
      if p + 12 + len > |b| || (strings + name) % TWO32 >= |b| then Stop(Malformed)
      else if IsTarget(Top(stack)) then Compare(strings + name, p + 12, len, p + 12 + Pad4(len))
      else Move(p + 12 + Pad4(len), stack)
    else Stop(Malformed)
  }

  /** The walk from cursor `p` with the given open nodes. */
  function Scan(b: seq<u8>, p: nat, stack: seq<Frame>, path: Text, prop: Text, strings: nat): Found
    decreases |b| - p
  {
    if p + 4 > |b| then NotFound else
    match TurnAt(b, p, stack, path, strings)
    case Stop(r) => r
    case Move(next, open) => Scan(b, next, open, path, prop, strings)
    case Compare(at, value, len, next) =>
      if RunsPast(b, at, prop) then Astray
      else if TextAt(b, at) == prop then Found(value, len)
      else Scan(b, next, stack, path, prop, strings)
  }

  /** The checks on the header. */
  predicate Headed(b: seq<u8>) {
    |b| >= HEADER && Word(b, 0) == MAGIC && Word(b, 8) < |b| && Word(b, 12) <= |b|
  }

  /** The whole reader: header checks, then the walk. */
  function Find(b: seq<u8>, path: Text, prop: Text): Found {
    if |b| < HEADER then Refused
    else if !Headed(b) then Malformed
    else Scan(b, Word(b, 8), [], path, prop, Word(b, 12))
  }

  /** What a walk over emitted items comes to, in document order. */
  datatype Outcome = Hit(value: seq<u8>) | Absent | Onward

  function Search(f: Forest, m: Frame, path: Text, prop: Text): Outcome {
    match f
    case Empty => Onward
    case Prop(n, v, rest) => if IsTarget(m) && n == prop then Hit(v) else Search(rest, m, path, prop)
    case Node(n, kids, rest) =>
      var c := Enter(m, n, path);
      var r := Search(kids, c, path, prop);
      if r.Onward? && !c.target then Search(rest, m, path, prop)
      else if r.Onward? then Absent
      else r
    case Stray(_) => Absent
  }

  /** `s` sits in `b` at `at`. */
  predicate Lies(b: seq<u8>, at: nat, s: seq<u8>) {
    at + |s| <= |b| && b[at..at + |s|] == s
  }

  lemma LiesParts(b: seq<u8>, at: nat, s: seq<u8>, t: seq<u8>)
    requires Lies(b, at, s + t)
    ensures Lies(b, at, s) && Lies(b, at + |s|, t)
  {
    var st := b[at..at + |s + t|];
    assert st[..|s|] == s && st[|s|..] == t;
    assert b[at..at + |s|] == st[..|s|] && b[at + |s|..at + |s| + |t|] == st[|s|..];
  }

  lemma WordLies(b: seq<u8>, at: nat, v: nat)
    requires Lies(b, at, Be32(v)) && v < TWO32
    ensures at + 4 <= |b| && Word(b, at) == v
  {
    WordBe32(b, at, v);
  }

  /** The walk's answer agrees with an outcome over the items it has just passed. */
  predicate Agrees(r: Found, b: seq<u8>, o: Outcome, after: Found) {
    match o
    case Hit(v) => r.Found? && Lies(b, r.at, v) && r.len == |v|
    case Absent => r == NotFound
    case Onward => r == after
  }

  lemma PropToken(b: seq<u8>, p: nat, offset: nat, v: seq<u8>, strings: nat, n: Text)
    requires Lies(b, p, PropBytes(offset, v)) && |b| < TWO32
    requires Lies(b, strings + offset, n + [0]) && IsText(n)
    ensures Word(b, p) == PROP && Word(b, p + 4) == |v| && Word(b, p + 8) == offset
    ensures Lies(b, p + 12, v) && TextAt(b, strings + offset) == n && EndsInside(b, strings + offset)
  {
    hide Be32, Padded, Word, TextAt, TextLength;
    LiesParts(b, p, Be32(PROP) + Be32(|v|) + Be32(offset), Padded(v));
    LiesParts(b, p, Be32(PROP) + Be32(|v|), Be32(offset));
    LiesParts(b, p, Be32(PROP), Be32(|v|));
    WordLies(b, p, PROP);
    WordLies(b, p + 4, |v|);
    WordLies(b, p + 8, offset);
    assert Padded(v) == v + Padded(v)[|v|..];
    LiesParts(b, p + 12, v, Padded(v)[|v|..]);
    LiesParts(b, strings + offset, n, [0]);
    assert b[strings + offset + |n|] == b[strings + offset + |n|..strings + offset + |n| + 1][0];
    TextStored(b, strings + offset, n);
    assert b[strings + offset..][|n|] == 0;
  }

  lemma OpenToken(b: seq<u8>, p: nat, n: Text)
    requires Lies(b, p, OpenBytes(n)) && IsText(n)
    ensures Word(b, p) == BEGIN_NODE && TextLength(b, p + 4) == |n| && b[p + 4..p + 4 + |n|] == n
  {
    hide Be32, Word, TextLength, TextAt;
    LiesParts(b, p, Be32(BEGIN_NODE), Padded(n + [0]));
    WordLies(b, p, BEGIN_NODE);
    assert Padded(n + [0]) == n + ([0] + Padded(n + [0])[|n| + 1..]);
    LiesParts(b, p + 4, n, [0] + Padded(n + [0])[|n| + 1..]);
    LiesParts(b, p + 4 + |n|, [0], Padded(n + [0])[|n| + 1..]);
    assert b[p + 4 + |n|] == b[p + 4 + |n|..p + 4 + |n| + 1][0];
    TextStored(b, p + 4, n);
  }

  lemma CloseToken(b: seq<u8>, p: nat, stack: seq<Frame>, path: Text, prop: Text, strings: nat)
    requires Lies(b, p, Be32(END_NODE)) && stack != []
    ensures Scan(b, p, stack, path, prop, strings) ==
            if IsTarget(Top(stack)) then NotFound else Scan(b, p + 4, stack[..|stack| - 1], path, prop, strings)
  {
    hide Be32, Word;
    WordLies(b, p, END_NODE);
  }

  lemma EndToken(b: seq<u8>, p: nat, stack: seq<Frame>, path: Text, prop: Text, strings: nat)
    requires Lies(b, p, Be32(END))
    ensures Scan(b, p, stack, path, prop, strings) == NotFound
  {
    hide Be32, Word;
    WordLies(b, p, END);
  }

  lemma OpenStep(b: seq<u8>, p: nat, n: Text, stack: seq<Frame>, path: Text, prop: Text, strings: nat)
    requires Lies(b, p, OpenBytes(n)) && IsText(n) && |stack| < DEEPEST
    ensures Scan(b, p, stack, path, prop, strings) ==
            Scan(b, p + |OpenBytes(n)|, stack + [Enter(Top(stack), n, path)], path, prop, strings)
  {
    hide Be32, Word, TextLength, TextAt, Enter, Top, Pad4;
    OpenToken(b, p, n);
  }

  lemma PropStep(b: seq<u8>, p: nat, offset: nat, n: Text, v: seq<u8>, stack: seq<Frame>, path: Text, prop: Text,
          strings: nat)
    requires Lies(b, p, PropBytes(offset, v)) && p + |PropBytes(offset, v)| + 4 <= |b| < TWO32
    requires Lies(b, strings + offset, n + [0]) && IsText(n)
    ensures
      var r := Scan(b, p, stack, path, prop, strings);
      if IsTarget(Top(stack)) && n == prop then r == Found(p + 12, |v|) && Lies(b, r.at, v)
      else r == Scan(b, p + |PropBytes(offset, v)|, stack, path, prop, strings)
  {
    hide Be32, Word, TextLength, TextAt, Top, Pad4;
    PropToken(b, p, offset, v, strings, n);
  }

  /** Where a forest sits: its tokens at the cursor and its names in the string block, with room to read past it. */
  predicate Placed(b: seq<u8>, p: nat, f: Forest, offset: nat, strings: nat) {
    && Lies(b, p, StructOf(f, offset)) && Lies(b, strings + offset, StringsOf(f))
    && p + |StructOf(f, offset)| + 4 <= |b| < TWO32
  }

  lemma PlacedProp(b: seq<u8>, p: nat, n: Text, v: seq<u8>, rest: Forest, offset: nat, strings: nat)
    requires Placed(b, p, Prop(n, v, rest), offset, strings)
    ensures Lies(b, p, PropBytes(offset, v)) && Lies(b, strings + offset, n + [0])
    ensures Placed(b, p + |PropBytes(offset, v)|, rest, offset + |n| + 1, strings)
    ensures |StructOf(Prop(n, v, rest), offset)| == |PropBytes(offset, v)| + |StructOf(rest, offset + |n| + 1)|
  {
    hide PropBytes, Lies;
    assert strings + offset + |n + [0]| == strings + (offset + |n| + 1);
    LiesParts(b, p, PropBytes(offset, v), StructOf(rest, offset + |n| + 1));
    LiesParts(b, strings + offset, n + [0], StringsOf(rest));
  }

  lemma PlacedNode(b: seq<u8>, p: nat, n: Text, kids: Forest, rest: Forest, offset: nat, strings: nat)
    requires Placed(b, p, Node(n, kids, rest), offset, strings)
    ensures
      var q := p + |OpenBytes(n)|;
      var q' := q + |StructOf(kids, offset)|;
      && Lies(b, p, OpenBytes(n)) && Placed(b, q, kids, offset, strings) && Lies(b, q', Be32(END_NODE))
      && Placed(b, q' + 4, rest, offset + |StringsOf(kids)|, strings)
      && p + |StructOf(Node(n, kids, rest), offset)| == q' + 4 + |StructOf(rest, offset + |StringsOf(kids)|)|
  {
    hide OpenBytes, Lies, Be32;
    var k := StructOf(kids, offset);
    var r := StructOf(rest, offset + |StringsOf(kids)|);
    assert strings + offset + |StringsOf(kids)| == strings + (offset + |StringsOf(kids)|);
    LiesParts(b, p, OpenBytes(n) + k + Be32(END_NODE), r);
    LiesParts(b, p, OpenBytes(n) + k, Be32(END_NODE));
    LiesParts(b, p, OpenBytes(n), k);
    LiesParts(b, strings + offset, StringsOf(kids), StringsOf(rest));
  }

  /** Walking a laid-out forest finds exactly what its items say, or passes it with the open nodes unchanged. */
  lemma {:induction false} ScanForest(b: seq<u8>, p: nat, f: Forest, offset: nat, stack: seq<Frame>, path: Text,
          prop: Text, strings: nat)
    requires Placed(b, p, f, offset, strings) && NamesAreText(f) && |stack| + Height(f) <= DEEPEST
    ensures Agrees(Scan(b, p, stack, path, prop, strings), b, Search(f, Top(stack), path, prop),
                   Scan(b, p + |StructOf(f, offset)|, stack, path, prop, strings))
    decreases f
  {
    hide Be32, PropBytes, OpenBytes, Lies, Placed, Enter, Scan, StructOf;
    match f
    case Empty =>
      EmptyLayout(offset);
    case Prop(n, v, rest) =>
      PlacedProp(b, p, n, v, rest, offset, strings);
      PropRoom(b, p, n, v, rest, offset, strings);
      PropStep(b, p, offset, n, v, stack, path, prop, strings);
      ScanForest(b, p + |PropBytes(offset, v)|, rest, offset + |n| + 1, stack, path, prop, strings);
    case Node(n, kids, rest) =>
      PlacedNode(b, p, n, kids, rest, offset, strings);
      var q := p + |OpenBytes(n)|;
      var q' := q + |StructOf(kids, offset)|;
      var inner := stack + [Enter(Top(stack), n, path)];
      assert inner[..|inner| - 1] == stack;
      OpenStep(b, p, n, stack, path, prop, strings);
      ScanForest(b, q, kids, offset, inner, path, prop, strings);
      CloseToken(b, q', inner, path, prop, strings);
      ScanForest(b, q' + 4, rest, offset + |StringsOf(kids)|, stack, path, prop, strings);
    case Stray(rest) =>
      PlacedStray(b, p, rest, offset, strings);
      EndToken(b, p, stack, path, prop, strings);
  }

  lemma EmptyLayout(offset: nat)
    ensures StructOf(Empty, offset) == []
  {
  }

  lemma PropRoom(b: seq<u8>, p: nat, n: Text, v: seq<u8>, rest: Forest, offset: nat, strings: nat)
    requires Placed(b, p, Prop(n, v, rest), offset, strings)
    ensures p + |PropBytes(offset, v)| + 4 <= |b| < TWO32
  {
  }

  lemma PlacedStray(b: seq<u8>, p: nat, rest: Forest, offset: nat, strings: nat)
    requires Placed(b, p, Stray(rest), offset, strings)
    ensures Lies(b, p, Be32(END))
  {
    LiesParts(b, p, Be32(END), StructOf(rest, offset));
  }

  // ----- exactly when the reader stays inside the blob -----

  /** The names a walk compares as long as none matches, in order. */
  function NamesFrom(b: seq<u8>, p: nat, stack: seq<Frame>, path: Text, strings: nat): seq<nat>
    decreases |b| - p
  {
    if p + 4 > |b| then [] else
    match TurnAt(b, p, stack, path, strings)
    case Stop(_) => []
    case Move(next, open) => NamesFrom(b, next, open, path, strings)
    case Compare(at, _, _, next) => [at] + NamesFrom(b, next, stack, path, strings)
  }

  function NamesCompared(b: seq<u8>, path: Text): seq<nat> {
    if Headed(b) then NamesFrom(b, Word(b, 8), [], path, Word(b, 12)) else []
  }

  lemma {:induction false} ScanInside(b: seq<u8>, p: nat, stack: seq<Frame>, path: Text, prop: Text, strings: nat)
    requires forall at :: at in NamesFrom(b, p, stack, path, strings) ==> EndsInside(b, at)
    ensures Scan(b, p, stack, path, prop, strings) != Astray
    decreases |b| - p
  {
    hide TextAt, EndsInside, Word, TextLength, Enter, Pad4;
    if p + 4 <= |b| {
      var t := TurnAt(b, p, stack, path, strings);
      if t.Move? {
        ScanInside(b, t.next, t.stack, path, prop, strings);
      } else if t.Compare? {
        assert t.at in NamesFrom(b, p, stack, path, strings);
        InsideStops(b, t.at, prop);
        ScanInside(b, t.next, stack, path, prop, strings);
      } else {
        StopsInside(b, p, stack, path, strings);
      }
    }
  }

  lemma InsideStops(b: seq<u8>, at: nat, prop: Text)
    requires EndsInside(b, at)
    ensures !RunsPast(b, at, prop)
  {
  }

  lemma StopsInside(b: seq<u8>, p: nat, stack: seq<Frame>, path: Text, strings: nat)
    requires p + 4 <= |b|
    ensures TurnAt(b, p, stack, path, strings) != Stop(Astray)
  {
  }

  /** A long enough property name passes every name that ends inside, and goes astray at the first that does not. */
  lemma {:induction false} ScanAstray(b: seq<u8>, p: nat, stack: seq<Frame>, path: Text, prop: Text, strings: nat,
          k: nat)
    requires
      var names := NamesFrom(b, p, stack, path, strings);
      && k < |names| && RunsPast(b, names[k], prop) && forall i :: 0 <= i < k ==> EndsInside(b, names[i])
    requires |prop| > |b|
    ensures Scan(b, p, stack, path, prop, strings) == Astray
    decreases |b| - p
  {
    hide TextAt, EndsInside, RunsPast, Word, TextLength, Enter, Pad4, TurnAt;
    if p + 4 <= |b| {
      var t := TurnAt(b, p, stack, path, strings);
      if t.Move? {
        ScanAstray(b, t.next, t.stack, path, prop, strings, k);
      } else if t.Compare? && k > 0 {
        var rest := NamesFrom(b, t.next, stack, path, strings);
        var names := NamesFrom(b, p, stack, path, strings);
        assert names == [t.at] + rest;
        forall i | 0 <= i < k - 1 ensures EndsInside(b, rest[i]) {
          assert rest[i] == names[i + 1];
        }
        assert EndsInside(b, names[0]) && rest[k - 1] == names[k];
        InsideStops(b, t.at, prop);
        ShortText(b, t.at);
        ScanAstray(b, t.next, stack, path, prop, strings, k - 1);
      }
    }
  }

  lemma ShortText(b: seq<u8>, at: nat)
    ensures |TextAt(b, at)| <= |b|
  {
  }

  /** A property name that the comparison at `at` follows off the end. */
  lemma LongName(b: seq<u8>, at: nat) returns (prop: Text)
    requires !EndsInside(b, at)
    ensures IsText(prop) && RunsPast(b, at, prop) && |prop| > |b|
  {
    var tail := if at < |b| then b[at..] else [];
    prop := tail + seq(|b| + 1, i => 1);
  }

  /** Reading a path of a blob stays inside it for every property name if and only if every name the walk compares
      ends inside. */
  lemma StaysInsideExactly(b: seq<u8>, path: Text)
    ensures (forall prop :: IsText(prop) ==> Find(b, path, prop) != Astray) <==>
            forall at :: at in NamesCompared(b, path) ==> EndsInside(b, at)
  {
    hide EndsInside, RunsPast, Scan, NamesFrom, IsText, Word;
    if Headed(b) {
      var names := NamesCompared(b, path);
      if forall at :: at in names ==> EndsInside(b, at) {
        forall prop ensures Find(b, path, prop) != Astray {
          ScanInside(b, Word(b, 8), [], path, prop, Word(b, 12));
        }
      } else {
        var k := FirstOpen(b, names);
        var prop := LongName(b, names[k]);
        ScanAstray(b, Word(b, 8), [], path, prop, Word(b, 12), k);
        assert Find(b, path, prop) == Astray;
      }
    }
  }

  lemma FirstOpen(b: seq<u8>, names: seq<nat>) returns (k: nat)
    requires exists at :: at in names && !EndsInside(b, at)
    ensures k < |names| && !EndsInside(b, names[k]) && forall i :: 0 <= i < k ==> EndsInside(b, names[i])
  {
    hide EndsInside;
    k := 0;
    while EndsInside(b, names[k])
      invariant k < |names| && forall i :: 0 <= i < k ==> EndsInside(b, names[i])
      decreases |names| - k
    {
      k := k + 1;
    }
  }

  const LOWER_A: u8 := 97

  /** A root with one empty property, and a string block that ends before the NUL of its name "a". */
  function CutBlob(): seq<u8> {
    Assembled(OpenBytes([]) + PropBytes(0, []) + Be32(END), [LOWER_A])
  }

  /** Looking that property up compares past the end. */
  lemma CutNameGoesAstray()
    ensures Find(CutBlob(), [SLASH], [LOWER_A]) == Astray
  {
    hide Be32, Padded, Word, Scan, Assembled, OpenBytes, PropBytes;
    var b, path := CutBlob(), [SLASH];
    var open, body := OpenBytes([]), PropBytes(0, []);
    var used := open + body + Be32(END);
    HeaderFields(used, [LOWER_A]);
    var strings := STRUCT_AT + |used|;
    assert Lies(b, STRUCT_AT, used);
    LiesParts(b, STRUCT_AT, open + body, Be32(END));
    LiesParts(b, STRUCT_AT, open, body);
    var root := Inside(1, true, true);
    assert [] + [root] == [root];
    OpenStep(b, STRUCT_AT, [], [], path, [LOWER_A], strings);
    assert b[strings..] == [LOWER_A];
    CutProp(b, STRUCT_AT + |open|, strings, path, root);
  }

  lemma CutProp(b: seq<u8>, p: nat, strings: nat, path: Text, root: Frame)
    requires Lies(b, p, PropBytes(0, [])) && p + 16 <= strings < |b| < TWO32
    requires b[strings..] == [LOWER_A] && IsTarget(root)
    ensures Scan(b, p, [root], path, [LOWER_A], strings) == Astray
  {
    hide Be32, Padded, Word, TextAt, TextLength;
    LiesParts(b, p, Be32(PROP) + Be32(0) + Be32(0), Padded([]));
    LiesParts(b, p, Be32(PROP) + Be32(0), Be32(0));
    LiesParts(b, p, Be32(PROP), Be32(0));
    WordLies(b, p, PROP);
    WordLies(b, p + 4, 0);
    WordLies(b, p + 8, 0);
    assert 0 !in b[strings..];
  }
}
