/** What the reader finds in a finished blob, against a plain tree lookup. */
module TreeRoundTrip {
  import opened Words
  import opened TreeFormat
  import opened TreeReader

  /** The contents of the first node of `f` called `name`. */
  function Child(f: Forest, name: Text): Option<Forest> {
    match f
    case Empty => None
    case Prop(_, _, rest) => Child(rest, name)
    case Node(n, kids, rest) => if n == name then Some(kids) else Child(rest, name)
    case Stray(rest) => Child(rest, name)
  }

  /** The first property of `f` called `name`. */
  function PropOf(f: Forest, name: Text): Option<seq<u8>> {
    match f
    case Empty => None
    case Prop(n, v, rest) => if n == name then Some(v) else PropOf(rest, name)
    case Node(_, _, rest) => PropOf(rest, name)
    case Stray(rest) => PropOf(rest, name)
  }

  /** Walks down `steps` by name and takes the property there. */
  function Lookup(f: Forest, steps: seq<Text>, prop: Text): Option<seq<u8>>
    decreases |steps|
  {
    if steps == [] then PropOf(f, prop) else
    match Child(f, steps[0])
    case None => None
    case Some(kids) => Lookup(kids, steps[1..], prop)
  }

  predicate DistinctSiblings(f: Forest) {
    match f
    case Empty => true
    case Prop(_, _, rest) => DistinctSiblings(rest)
    case Node(n, kids, rest) => Child(rest, n) == None && DistinctSiblings(kids) && DistinctSiblings(rest)
    case Stray(rest) => DistinctSiblings(rest)
  }

  predicate NoStray(f: Forest) {
    match f
    case Empty => true
    case Prop(_, _, rest) => NoStray(rest)
    case Node(_, kids, rest) => NoStray(kids) && NoStray(rest)
    case Stray(_) => false
  }

  function Components(path: Text, start: nat): (cs: seq<Text>)
    requires start <= |path|
    ensures cs != []
    decreases |path| - start
  {
    var n := ComponentLength(path, start);
    if start + n == |path| then [path[start..start + n]]
    else [path[start..start + n]] + Components(path, start + n + 1)
  }

  /** The reader's meaning of a path: the unnamed root, then the slash-separated components; a one-character path is
      the root. */
  function Resolve(f: Forest, path: Text, prop: Text): Option<seq<u8>> {
    if path == [] then None
    else if |path| == 1 then Lookup(f, [[]], prop)
    else Lookup(f, [[]] + Components(path, 1), prop)
  }

  /** `path` spelled from node names. */
  function PathOf(steps: seq<Text>): (path: Text)
    ensures |path| > 0
  {
    if |steps| == 0 then [SLASH]
    else if |steps| == 1 then [SLASH] + steps[0]
    else [SLASH] + steps[0] + PathOf(steps[1..])
  }

  predicate PathName(n: Text) {
    n != [] && SLASH !in n
  }

  lemma {:induction false} ComponentScan(path: Text, start: nat, n: Text)
    requires start + |n| <= |path| && path[start..start + |n|] == n && SLASH !in n
    requires start + |n| == |path| || path[start + |n|] == SLASH
    ensures ComponentLength(path, start) == |n|
    decreases |n|
  {
    if n != [] {
      assert path[start] == n[0] && n[0] in n;
      assert path[start + 1..start + 1 + |n[1..]|] == n[1..];
      ComponentScan(path, start + 1, n[1..]);
    }
  }

  /** Splitting a path spelled from slash-free names gives the names back, wherever the path sits. */
  lemma {:induction false} ComponentsOfPath(before: Text, steps: seq<Text>)
    requires steps != [] && forall i :: 0 <= i < |steps| ==> PathName(steps[i])
    ensures Components(before + PathOf(steps), |before| + 1) == steps
    decreases |steps|
  {
    hide PathOf, Components;
    PathUnfolds(steps);
    var name := steps[0];
    assert PathName(name);
    var tail := if |steps| == 1 then [] else PathOf(steps[1..]);
    assert before + PathOf(steps) == before + [SLASH] + name + tail;
    Sandwich(before, name, tail);
    ComponentStep(before + PathOf(steps), |before| + 1, name);
    if |steps| > 1 {
      ComponentsOfPath(before + [SLASH] + name, steps[1..]);
      assert steps == [name] + steps[1..];
    } else {
      assert steps == [name];
    }
  }

  /** One component is split off at a time. */
  lemma ComponentStep(path: Text, start: nat, name: Text)
    requires start + |name| <= |path| && path[start..start + |name|] == name && SLASH !in name
    requires start + |name| == |path| || path[start + |name|] == SLASH
    ensures Components(path, start) ==
            if start + |name| == |path| then [name] else [name] + Components(path, start + |name| + 1)
  {
    hide ComponentLength;
    ComponentScan(path, start, name);
  }

  lemma PathUnfolds(steps: seq<Text>)
    requires steps != []
    ensures PathOf(steps) == [SLASH] + steps[0] + if |steps| == 1 then [] else PathOf(steps[1..])
    ensures |steps| > 1 ==> PathOf(steps[1..])[0] == SLASH
  {
  }

  lemma Sandwich(before: Text, name: Text, tail: Text)
    ensures
      var path, start := before + [SLASH] + name + tail, |before| + 1;
      && path[start..start + |name|] == name
      && (tail != [] ==> path[start + |name|] == tail[0])
  {
  }

  lemma {:induction false} SearchDead(f: Forest, path: Text, prop: Text)
    requires NoStray(f)
    ensures Search(f, DEAD, path, prop) == Onward
  {
    match f
    case Empty =>
    case Prop(_, _, rest) => SearchDead(rest, path, prop);
    case Node(_, kids, rest) =>
      SearchDead(kids, path, prop);
      SearchDead(rest, path, prop);
  }

  lemma {:induction false} SearchTarget(f: Forest, m: Frame, path: Text, prop: Text)
    requires NoStray(f) && IsTarget(m)
    ensures Search(f, m, path, prop) == match PropOf(f, prop) case None => Onward case Some(v) => Hit(v)
  {
    match f
    case Empty =>
    case Prop(_, _, rest) => SearchTarget(rest, m, path, prop);
    case Node(n, kids, rest) =>
      SearchDead(kids, path, prop);
      SearchTarget(rest, m, path, prop);
  }

  /** Below a matched node the walk finds the next component's child, and through it the property, or nothing. */
  lemma {:induction false} SearchPath(f: Forest, m: Frame, path: Text, prop: Text)
    requires NoStray(f) && DistinctSiblings(f)
    requires m.Inside? && m.matched && !m.target && m.pos < |path|
    ensures
      var o := Search(f, m, path, prop);
      match Lookup(f, Components(path, m.pos + 1), prop) case None => !o.Hit? case Some(v) => o == Hit(v)
    ensures Child(f, Components(path, m.pos + 1)[0]) == None ==> Search(f, m, path, prop) == Onward
    decreases f
  {
    var cs := Components(path, m.pos + 1);
    match f
    case Empty =>
    case Prop(_, _, rest) =>
      SearchPath(rest, m, path, prop);
    case Node(n, kids, rest) =>
      var c := Enter(m, n, path);
      SearchPath(rest, m, path, prop);
      if n != cs[0] {
        SearchDead(kids, path, prop);
      } else if c.target {
        SearchTarget(kids, c, path, prop);
        assert cs[1..] == [] && Lookup(kids, cs[1..], prop) == PropOf(kids, prop);
      } else {
        SearchPath(kids, c, path, prop);
        assert cs[1..] == Components(path, c.pos + 1);
      }
  }

  lemma {:induction false} SearchTop(f: Forest, path: Text, prop: Text)
    requires NoStray(f) && DistinctSiblings(f)
    ensures
      var o := Search(f, Outside, path, prop);
      match Resolve(f, path, prop) case None => !o.Hit? case Some(v) => o == Hit(v)
    ensures Child(f, []) == None ==> Search(f, Outside, path, prop) == Onward
  {
    match f
    case Empty =>
    case Prop(_, _, rest) =>
      SearchTop(rest, path, prop);
    case Node(n, kids, rest) =>
      SearchTop(rest, path, prop);
      var c := Enter(Outside, n, path);
      if n != [] {
        SearchDead(kids, path, prop);
      } else if |path| == 1 {
        SearchTarget(kids, c, path, prop);
        var steps: seq<Text> := [[]];
        assert steps[1..] == [];
      } else if |path| == 0 {
        SearchNowhere(kids, c, path, prop);
      } else {
        SearchPath(kids, c, path, prop);
        assert ([[]] + Components(path, 1))[1..] == Components(path, 1);
      }
  }

  /** The empty path names nothing, not even the root. */
  lemma {:induction false} SearchNowhere(f: Forest, m: Frame, path: Text, prop: Text)
    requires NoStray(f) && m.Inside? && !m.target && m.pos >= |path|
    ensures Search(f, m, path, prop) == Onward
  {
    match f
    case Empty =>
    case Prop(_, _, rest) => SearchNowhere(rest, m, path, prop);
    case Node(n, kids, rest) =>
      SearchDead(kids, path, prop);
      SearchNowhere(rest, m, path, prop);
  }

  /** Everything the reader's guards allow: nesting within the stack, offsets within 32 bits, names as C strings. */
  predicate Readable(f: Forest) {
    && NamesAreText(f) && Height(f) <= DEEPEST
    && STRUCT_AT + |StructOf(f, 0)| + 4 + |StringsOf(f)| < TWO32
  }

  /** Reading a finished blob comes to what its items say in document order, duplicates and strays included. */
  lemma FindIsSearch(f: Forest, path: Text, prop: Text)
    requires Readable(f)
    ensures Agrees(Find(Blob(f), path, prop), Blob(f), Search(f, Outside, path, prop), NotFound)
  {
    hide Be32, Word, Lies, Scan, StructOf, Search;
    var b, s, n := Blob(f), StructOf(f, 0), StringsOf(f);
    var used := s + Be32(END);
    HeaderFields(used, n);
    assert Lies(b, STRUCT_AT, used) && Lies(b, STRUCT_AT + |used|, n) by { BlobParts(f); }
    LiesParts(b, STRUCT_AT, s, Be32(END));
    assert STRUCT_AT + |used| + 0 == STRUCT_AT + |used|;
    ScanForest(b, STRUCT_AT, f, 0, [], path, prop, STRUCT_AT + |used|);
    EndToken(b, STRUCT_AT + |s|, [], path, prop, STRUCT_AT + |used|);
  }

  lemma BlobParts(f: Forest)
    requires Readable(f)
    ensures
      var used := StructOf(f, 0) + Be32(END);
      Lies(Blob(f), STRUCT_AT, used) && Lies(Blob(f), STRUCT_AT + |used|, StringsOf(f))
  {
    var used := StructOf(f, 0) + Be32(END);
    HeaderFields(used, StringsOf(f));
  }

  /** The round trip: every property of the emitted tree is found with exactly its bytes, and nothing else is found. */
  lemma FindsExactly(f: Forest, path: Text, prop: Text)
    requires Readable(f) && NoStray(f) && DistinctSiblings(f)
    ensures
      var r := Find(Blob(f), path, prop);
      match Resolve(f, path, prop)
      case None => r == NotFound
      case Some(v) => r.Found? && Lies(Blob(f), r.at, v) && r.len == |v|
  {
    hide Find, Blob, Search, Lies, Resolve;
    FindIsSearch(f, path, prop);
    SearchTop(f, path, prop);
  }

  /** The same, for a path spelled from node names. */
  lemma FindsByNames(f: Forest, steps: seq<Text>, prop: Text)
    requires Readable(f) && NoStray(f) && DistinctSiblings(f)
    requires forall i :: 0 <= i < |steps| ==> PathName(steps[i])
    ensures
      var r := Find(Blob(f), PathOf(steps), prop);
      match Lookup(f, [[]] + steps, prop)
      case None => r == NotFound
      case Some(v) => r.Found? && Lies(Blob(f), r.at, v) && r.len == |v|
  {
    hide Find, Blob, Lies, Lookup;
    FindsExactly(f, PathOf(steps), prop);
    if steps == [] {
      assert [[]] + steps == [[]];
    } else {
      assert PathName(steps[0]);
      assert [] + PathOf(steps) == PathOf(steps);
      ComponentsOfPath([], steps);
    }
  }
}
