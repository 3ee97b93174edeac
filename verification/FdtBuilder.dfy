/** The in-place device tree writer and the cursor-and-stack reader, as methods. */
module TreeBuilder {
  import opened Words
  import opened TreeFormat
  import opened TreeReader
  import opened TreeRoundTrip

  /** A node still open, with the items emitted in it so far; the bottom layer holds the top-level nodes. */
  datatype Layer = Layer(name: Text, items: Forest)

  function StringsOpen(open: seq<Layer>): seq<u8> {
    if open == [] then [] else StringsOpen(open[..|open| - 1]) + StringsOf(open[|open| - 1].items)
  }

  /** What the structure scratch holds while `open` is open. */
  function StructOpen(open: seq<Layer>): seq<u8> {
    if open == [] then [] else
    var below, top := open[..|open| - 1], open[|open| - 1];
    StructOpen(below) + Head(below, top.name) + StructOf(top.items, |StringsOpen(below)|)
  }

  function Head(below: seq<Layer>, name: Text): seq<u8> {
    if below == [] then [] else OpenBytes(name)
  }

  predicate LayersAreText(open: seq<Layer>) {
    forall i :: 0 <= i < |open| ==> IsText(open[i].name) && NamesAreText(open[i].items)
  }

  /** `open` with `g` appended to its innermost node. */
  function Extended(open: seq<Layer>, g: Forest): (r: seq<Layer>)
    requires open != []
    ensures |r| == |open|
  {
    var last := |open| - 1;
    open[last := Layer(open[last].name, Append(open[last].items, g))]
  }

  /** `open` with its innermost node ended. */
  function Closed(open: seq<Layer>): (r: seq<Layer>)
    requires |open| > 1
    ensures |r| == |open| - 1
  {
    var top := open[|open| - 1];
    Extended(open[..|open| - 1], Node(top.name, top.items, Empty))
  }

  lemma TopLayer(below: seq<Layer>, top: Layer)
    ensures StructOpen(below + [top]) ==
            StructOpen(below) + Head(below, top.name) + StructOf(top.items, |StringsOpen(below)|)
    ensures StringsOpen(below + [top]) == StringsOpen(below) + StringsOf(top.items)
  {
    var open := below + [top];
    assert open[..|open| - 1] == below && open[|open| - 1] == top;
  }

  lemma ExtendedLayout(open: seq<Layer>, g: Forest)
    requires open != []
    ensures StructOpen(Extended(open, g)) == StructOpen(open) + StructOf(g, |StringsOpen(open)|)
    ensures StringsOpen(Extended(open, g)) == StringsOpen(open) + StringsOf(g)
  {
    hide StructOf, StringsOf, Append, StructOpen, StringsOpen, Head;
    var below, top := open[..|open| - 1], open[|open| - 1];
    var top' := Layer(top.name, Append(top.items, g));
    assert open == below + [top] && Extended(open, g) == below + [top'];
    TopLayer(below, top);
    TopLayer(below, top');
    AppendStrings(top.items, g);
    AppendStruct(top.items, g, |StringsOpen(below)|);
    var head := StructOpen(below) + Head(below, top.name);
    Regroup(StringsOpen(below), StringsOf(top.items), StringsOf(g));
    Regroup(head, StructOf(top.items, |StringsOpen(below)|), StructOf(g, |StringsOpen(open)|));
  }

  lemma ExtendedText(open: seq<Layer>, g: Forest)
    requires open != [] && LayersAreText(open) && NamesAreText(g)
    ensures LayersAreText(Extended(open, g))
  {
    hide NamesAreText;
    AppendStrings(open[|open| - 1].items, g);
  }

  lemma OpenedLayout(open: seq<Layer>, name: Text)
    requires open != []
    ensures StructOpen(open + [Layer(name, Empty)]) == StructOpen(open) + OpenBytes(name)
    ensures StringsOpen(open + [Layer(name, Empty)]) == StringsOpen(open)
  {
    hide OpenBytes, StructOpen, StringsOpen;
    TopLayer(open, Layer(name, Empty));
  }

  lemma ClosedLayout(open: seq<Layer>)
    requires |open| > 1
    ensures StructOpen(Closed(open)) == StructOpen(open) + Be32(END_NODE)
    ensures StringsOpen(Closed(open)) == StringsOpen(open)
  {
    hide StructOpen, StringsOpen, Be32, Extended;
    SplitTop(open);
    NodeEnded(open[..|open| - 1], open[|open| - 1]);
  }

  lemma SplitTop(open: seq<Layer>)
    requires open != []
    ensures open[..|open| - 1] + [open[|open| - 1]] == open
  {
  }

  lemma NodeEnded(below: seq<Layer>, top: Layer)
    requires below != []
    ensures
      var closed := Extended(below, Node(top.name, top.items, Empty));
      && StructOpen(closed) == StructOpen(below + [top]) + Be32(END_NODE)
      && StringsOpen(closed) == StringsOpen(below + [top])
  {
    hide OpenBytes, Be32, Extended, StructOpen, StringsOpen, StructOf, StringsOf, Head;
    var offset := |StringsOpen(below)|;
    TopLayer(below, top);
    HeadOfNode(below, top.name);
    ExtendedLayout(below, Node(top.name, top.items, Empty));
    LastNode(top, offset);
    NodeRegroup(StructOpen(below), OpenBytes(top.name), StructOf(top.items, offset), Be32(END_NODE));
  }

  lemma HeadOfNode(below: seq<Layer>, name: Text)
    requires below != []
    ensures Head(below, name) == OpenBytes(name)
  {
  }

  lemma NodeRegroup(a: seq<u8>, b: seq<u8>, c: seq<u8>, d: seq<u8>)
    ensures a + (b + c + d) == a + b + c + d
  {
  }

  lemma ClosedText(open: seq<Layer>)
    requires |open| > 1
    ensures LayersAreText(open) ==> LayersAreText(Closed(open))
  {
    hide NamesAreText, Extended;
    var below, top := open[..|open| - 1], open[|open| - 1];
    if LayersAreText(open) {
      LastNode(top, 0);
      ExtendedText(below, Node(top.name, top.items, Empty));
    }
  }

  lemma LastNode(top: Layer, offset: nat)
    ensures StructOf(Node(top.name, top.items, Empty), offset) ==
            OpenBytes(top.name) + StructOf(top.items, offset) + Be32(END_NODE)
    ensures StringsOf(Node(top.name, top.items, Empty)) == StringsOf(top.items)
    ensures NamesAreText(Node(top.name, top.items, Empty)) == (IsText(top.name) && NamesAreText(top.items))
  {
    hide OpenBytes, Be32;
    assert StringsOf(top.items) + [] == StringsOf(top.items);
    var s := OpenBytes(top.name) + StructOf(top.items, offset) + Be32(END_NODE);
    assert s + [] == s;
  }

  lemma PropLayout(open: seq<Layer>, name: Text, value: seq<u8>)
    requires open != []
    ensures
      var r := Extended(open, Prop(name, value, Empty));
      && StructOpen(r) == StructOpen(open) + PropBytes(|StringsOpen(open)|, value)
      && StringsOpen(r) == StringsOpen(open) + (name + [0])
      && (LayersAreText(open) && IsText(name) ==> LayersAreText(r))
  {
    hide Extended, PropBytes, StructOpen, StringsOpen;
    ExtendedLayout(open, Prop(name, value, Empty));
    assert NamesAreText(Prop(name, value, Empty)) == IsText(name);
    if LayersAreText(open) && IsText(name) {
      ExtendedText(open, Prop(name, value, Empty));
    }
    assert StructOf(Prop(name, value, Empty), |StringsOpen(open)|) == PropBytes(|StringsOpen(open)|, value);
    assert StringsOf(Prop(name, value, Empty)) == name + [0];
  }

  lemma StrayLayout(open: seq<Layer>)
    requires open != []
    ensures
      var r := Extended(open, Stray(Empty));
      && StructOpen(r) == StructOpen(open) + Be32(END) && StringsOpen(r) == StringsOpen(open)
      && (LayersAreText(open) ==> LayersAreText(r))
  {
    hide Extended, Be32, StructOpen, StringsOpen;
    ExtendedLayout(open, Stray(Empty));
    if LayersAreText(open) {
      ExtendedText(open, Stray(Empty));
    }
    assert StructOf(Stray(Empty), |StringsOpen(open)|) == Be32(END);
    assert StringsOf(Stray(Empty)) == [];
  }

  lemma BottomLayout(open: seq<Layer>)
    requires |open| == 1
    ensures StructOpen(open) == StructOf(open[0].items, 0) && StringsOpen(open) == StringsOf(open[0].items)
  {
    assert open[..0] == [];
  }

  class Builder {
    var sb: array?<u8>
    var cap: nat
    var used: nat
    var names: nat
    var depth: int
    var data: array?<u8>
    ghost var open: seq<Layer>

    /** The scratch holds the serialised open layers: structure from the front, names from `cap` on. */
    ghost predicate Valid()
      reads this, sb
    {
      sb != null ==>
        && data == null && Sized()
        && open != [] && depth == |open| - 1 && LayersAreText(open)
        && StructBytes() == StructOpen(open) && StringBytes() == StringsOpen(open)
    }

    ghost predicate Sized()
      reads `sb, `cap, `used, `names, sb
    {
      sb != null && sb.Length == 2 * cap && used + names <= cap
    }

    ghost function StructBytes(): (bs: seq<u8>)
      requires Sized()
      reads `sb, `cap, `used, `names, sb
      ensures |bs| == used
    {
      sb[..used]
    }

    ghost function StringBytes(): (bs: seq<u8>)
      requires Sized()
      reads `sb, `cap, `used, `names, sb
      ensures |bs| == names
    {
      sb[cap..cap + names]
    }

    predicate Fits(structure: nat, strings: nat)
      reads this
    {
      used + names + structure + strings <= cap
    }

    constructor ()
      ensures Valid() && sb == null && data == null
    {
      sb, data := null, null;
      cap, used, names, depth, open := 0, 0, 0, 0, [];
    }

    method Init(capacity: nat, allocOk: bool) returns (s: Status)
      modifies this
      ensures s == if capacity < 128 then INVALID_ARG else if !allocOk then NO_MEMORY else OK
      ensures s == OK ==>
                Valid() && sb != null && fresh(sb) && cap == capacity && open == [Layer([], Empty), Layer([], Empty)]
      ensures s != OK ==> unchanged(this)
    {
      hide OpenBytes, Be32;
      if capacity < 128 {
        return INVALID_ARG;
      }
      if !allocOk {
        return NO_MEMORY;
      }
      sb := new u8[2 * capacity];
      cap, used, names, depth, data := capacity, 0, 0, 0, null;
      open := [Layer([], Empty)];
      BottomLayout(open);
      s := BeginNode([]);
    }

    method Emit(bytes: seq<u8>)
      requires Sized() && used + |bytes| + names <= cap
      modifies this`used, sb
      ensures Sized() && used == old(used) + |bytes|
      ensures StructBytes() == old(StructBytes()) + bytes
      ensures StringBytes() == old(StringBytes())
    {
      forall i | 0 <= i < |bytes| {
        sb[used + i] := bytes[i];
      }
      used := used + |bytes|;
      assert sb[..used] == old(sb[..used]) + bytes;
    }

    method BeginNode(name: Text) returns (s: Status)
      requires Valid() && IsText(name)
      modifies this`used, this`depth, this`open, sb
      ensures Valid()
      ensures s == if old(sb) == null then STATE
                   else if |name| >= 128 then INVALID_ARG
                   else if old(used) + old(names) + 4 + Pad4(|name| + 1) > cap then NO_MEMORY
                   else OK
      ensures s == OK ==> open == old(open) + [Layer(name, Empty)]
      ensures s != OK ==> unchanged(this) && (sb != null ==> unchanged(sb))
    {
      hide StructOpen, StringsOpen, OpenBytes, StructBytes, StringBytes, Padded, Be32;
      if sb == null {
        return STATE;
      }
      if |name| >= MAX_NAME {
        return INVALID_ARG;
      }
      if !Fits(4 + Pad4(|name| + 1), 0) {
        return NO_MEMORY;
      }
      OpenedLayout(open, name);
      Emit(Be32(BEGIN_NODE));
      Emit(Padded(name + [0]));
      depth := depth + 1;
      OpenSpelled(StructOpen(open), name);
      open := open + [Layer(name, Empty)];
      return OK;
    }

    method EndNode() returns (s: Status)
      requires Valid()
      modifies this`used, this`depth, this`open, sb
      ensures Valid()
      ensures s == if old(sb) == null || old(depth) <= 0 then STATE
                   else if old(used) + old(names) + 4 > cap then NO_MEMORY
                   else OK
      ensures s == OK ==> |old(open)| > 1 && open == Closed(old(open))
      ensures s != OK ==> unchanged(this) && (sb != null ==> unchanged(sb))
    {
      hide StructOpen, StringsOpen, Be32, StructBytes, StringBytes, LayersAreText, Closed;
      if sb == null || depth <= 0 {
        return STATE;
      }
      if !Fits(4, 0) {
        return NO_MEMORY;
      }
      ClosedLayout(open);
      ClosedText(open);
      Emit(Be32(END_NODE));
      depth := depth - 1;
      open := Closed(open);
      return OK;
    }

    /** The shared body of the property emitters: the guard, the interned name, then the token. */
    method Property(name: Text, value: seq<u8>) returns (s: Status)
      requires Valid() && IsText(name)
      modifies this`used, this`names, this`open, sb
      ensures Valid()
      ensures s == if old(sb) == null then STATE
                   else if name == [] then INVALID_ARG
                   else if old(depth) <= 0 then STATE
                   else if |name| >= 128 || old(used) + old(names) + 12 + Pad4(|value|) + |name| + 1 > cap then
                     NO_MEMORY
                   else OK
      ensures s == OK ==> old(open) != [] && open == Extended(old(open), Prop(name, value, Empty))
      ensures s != OK ==> unchanged(this) && (sb != null ==> unchanged(sb))
    {
      hide StructOpen, StringsOpen, PropBytes, Extended, StructBytes, StringBytes, Be32, Zeros, Pad4, LayersAreText;
      if sb == null {
        return STATE;
      }
      if name == [] {
        return INVALID_ARG;
      }
      if depth <= 0 {
        return STATE;
      }
      if |name| + 1 > MAX_NAME || !Fits(12 + Pad4(|value|), |name| + 1) {
        return NO_MEMORY;
      }
      PropLayout(open, name, value);
      var offset := Intern(name);
      Emit(Be32(PROP) + Be32(|value|) + Be32(offset));
      Emit(value);
      Emit(Zeros(Pad4(|value|) - |value|));
      PropSpelled(old(StructBytes()), offset, value);
      open := Extended(open, Prop(name, value, Empty));
      return OK;
    }

    /** Appends a name and its NUL to the string block; the offset returned is final. */
    method Intern(name: Text) returns (offset: nat)
      requires Sized() && used + names + |name| + 1 <= cap
      modifies this`names, sb
      ensures Sized() && offset == old(names) && names == offset + |name| + 1
      ensures StructBytes() == old(StructBytes())
      ensures StringBytes() == old(StringBytes()) + (name + [0])
    {
      var bytes := name + [0];
      forall i | 0 <= i < |bytes| {
        sb[cap + names + i] := bytes[i];
      }
      offset := names;
      names := names + |bytes|;
      assert sb[cap..cap + names] == old(sb[cap..cap + names]) + bytes;
    }

    /** Closes the structure block and assembles the blob; only a failed allocation leaves a trace, one stray END. */
    method Finish(allocOk: bool) returns (s: Status)
      requires Valid()
      modifies this, sb
      ensures Valid()
      ensures s == if old(sb) == null || old(depth) != 0 then STATE
                   else if old(used) + old(names) + 4 > old(cap) || !allocOk then NO_MEMORY
                   else OK
      ensures s == OK ==>
                && sb == null && data != null && |old(open)| == 1
                && data[..] == Blob(old(open)[0].items)
                && data.Length <= old(cap) + STRUCT_AT
                && (old(cap) + STRUCT_AT < TWO32 && Height(old(open)[0].items) <= DEEPEST ==>
                        Readable(old(open)[0].items))
      ensures s == NO_MEMORY ==>
                && sb == old(sb) && data == null && old(open) != []
                && open == if old(used) + old(names) + 4 <= old(cap) then Extended(old(open), Stray(Empty))
                           else old(open)
      ensures s == STATE ==> unchanged(this)
    {
      hide StructOpen, StringsOpen, Be32, Extended, HeaderBytes, StructOf, StringsOf, NamesAreText, Height;
      if sb == null || depth != 0 {
        return STATE;
      }
      if !Fits(4, 0) {
        return NO_MEMORY;
      }
      StrayLayout(open);
      BottomLayout(open);
      ghost var f := open[0].items;
      Emit(Be32(END));
      if !allocOk {
        open := Extended(open, Stray(Empty));
        return NO_MEMORY;
      }
      var blob := new u8[STRUCT_AT + used + names];
      var bytes := HeaderBytes(used, names) + sb[..used] + sb[cap..cap + names];
      forall i | 0 <= i < blob.Length {
        blob[i] := bytes[i];
      }
      assert blob[..] == bytes;
      sb := null;
      data := blob;
      return OK;
    }
  }

  lemma OpenSpelled(before: seq<u8>, name: Text)
    ensures before + Be32(BEGIN_NODE) + Padded(name + [0]) == before + OpenBytes(name)
  {
    hide Be32, Padded;
  }

  lemma PropSpelled(before: seq<u8>, offset: nat, value: seq<u8>)
    ensures before + (Be32(PROP) + Be32(|value|) + Be32(offset)) + value + Zeros(Pad4(|value|) - |value|)
         == before + PropBytes(offset, value)
  {
    hide Be32, Zeros, Pad4;
  }

  method MeasureText(b: seq<u8>, at: nat) returns (n: nat)
    requires at <= |b|
    ensures n == TextLength(b, at)
  {
    n := 0;
    while at + n < |b| && b[at + n] != 0
      invariant at + n <= |b| && TextLength(b, at) == n + TextLength(b, at + n)
    {
      n := n + 1;
    }
  }

  method MeasureComponent(path: Text, start: nat) returns (n: nat)
    requires start <= |path|
    ensures n == ComponentLength(path, start)
  {
    n := 0;
    while start + n < |path| && path[start + n] != SLASH
      invariant start + n <= |path| && ComponentLength(path, start) == n + ComponentLength(path, start + n)
    {
      n := n + 1;
    }
  }

  /** Decides how far a newly opened node matches the path. */
  method EnterNode(parent: Frame, name: Text, path: Text) returns (f: Frame)
    ensures f == Enter(parent, name, path)
  {
    if parent.Outside? {
      if name != [] {
        return DEAD;
      }
      return Inside(if |path| == 1 then 1 else 0, true, |path| == 1);
    }
    if parent.target || !parent.matched || parent.pos + 1 > |path| {
      return DEAD;
    }
    var start := parent.pos + 1;
    var n := MeasureComponent(path, start);
    if name == path[start..start + n] {
      return Inside(start + n, true, start + n == |path|);
    }
    return DEAD;
  }

  /** Opens a frame at `depth` over the ones below it. */
  method PushFrame(stack: array<Frame>, depth: nat, name: Text, path: Text)
    requires depth < stack.Length
    modifies stack
    ensures stack[..depth + 1] == old(stack[..depth]) + [Enter(Top(old(stack[..depth])), name, path)]
  {
    stack[depth] := EnterNode(if depth > 0 then stack[depth - 1] else Outside, name, path);
    assert stack[..depth + 1] == old(stack[..depth]) + [stack[depth]];
  }

  lemma TopFrame(frames: seq<Frame>)
    ensures frames != [] ==> Top(frames) == frames[|frames| - 1]
    ensures frames == [] ==> !IsTarget(Top(frames))
  {
  }

  lemma FindBegins(b: seq<u8>, path: Text, prop: Text)
    ensures Find(b, path, prop) ==
            if |b| < HEADER then Refused
            else if Word(b, 0) != MAGIC || Word(b, 8) >= |b| || Word(b, 12) > |b| then Malformed
            else Scan(b, Word(b, 8), [], path, prop, Word(b, 12))
  {
  }

  /** The reader: one cursor, one stack of frames, no recursion. */
  method FindProperty(b: seq<u8>, path: Text, prop: Text) returns (r: Found)
    ensures r == Find(b, path, prop)
  {
    hide Enter, TextAt, TextLength, RunsPast, Pad4, Word, Find, Top, IsTarget, Scan;
    FindBegins(b, path, prop);
    if |b| < HEADER {
      return Refused;
    }
    if Word(b, 0) != MAGIC {
      return Malformed;
    }
    var strings := Word(b, 12);
    var p := Word(b, 8);
    if p >= |b| || strings > |b| {
      return Malformed;
    }
    var stack := new Frame[DEEPEST](i => DEAD);
    var depth := -1;
    while p + 4 <= |b|
      invariant -1 <= depth < DEEPEST
      invariant Scan(b, p, stack[..depth + 1], path, prop, strings) == Find(b, path, prop)
      decreases |b| - p
    {
      ghost var frames := stack[..depth + 1];
      TopFrame(frames);
      ScanUnfolds(b, p, frames, path, prop, strings);
      var token := Word(b, p);
      p := p + 4;
      if token == END {
        return NotFound;
      } else if token == END_NODE {
        if depth >= 0 {
          if IsTarget(stack[depth]) {
            return NotFound;
          }
          depth := depth - 1;
          assert stack[..depth + 1] == frames[..|frames| - 1];
        }
      } else if token == BEGIN_NODE {
        var n := MeasureText(b, p);
        if p + Pad4(n + 1) > |b| {
          return Malformed;
        }
        var name := b[p..p + n];
        p := p + Pad4(n + 1);
        depth := depth + 1;
        if depth >= DEEPEST {
          return Malformed;
        }
        PushFrame(stack, depth, name, path);
      } else if token == PROP {
        if p + 12 > |b| {
          return Malformed;
        }
        var len, name := Word(b, p), Word(b, p + 4);
        p := p + 8;
        if p + len > |b| || (strings + name) % TWO32 >= |b| {
          return Malformed;
        }
        var value := p;
        p := p + Pad4(len);
        if depth >= 0 && IsTarget(stack[depth]) {
          if RunsPast(b, strings + name, prop) {
            return Astray;
          }
          if TextAt(b, strings + name) == prop {
            return Found(value, len);
          }
        }
      } else {
        return Malformed;
      }
    }
    ScanEnds(b, p, stack[..depth + 1], path, prop, strings);
    return NotFound;
  }

  lemma ScanEnds(b: seq<u8>, p: nat, stack: seq<Frame>, path: Text, prop: Text, strings: nat)
    requires p + 4 > |b|
    ensures Scan(b, p, stack, path, prop, strings) == NotFound
  {
  }

  lemma ScanUnfolds(b: seq<u8>, p: nat, stack: seq<Frame>, path: Text, prop: Text, strings: nat)
    requires p + 4 <= |b|
    ensures Scan(b, p, stack, path, prop, strings) ==
            var token := Word(b, p);
            if token == END then NotFound
            else if token == END_NODE then
              if stack == [] then Scan(b, p + 4, stack, path, prop, strings)
              else if IsTarget(Top(stack)) then NotFound
              else Scan(b, p + 4, stack[..|stack| - 1], path, prop, strings)
            else if token == BEGIN_NODE then
              var n := TextLength(b, p + 4);
              if p + 4 + Pad4(n + 1) > |b| || |stack| >= DEEPEST then Malformed
              else Scan(b, p + 4 + Pad4(n + 1), stack + [Enter(Top(stack), b[p + 4..p + 4 + n], path)], path,
                        prop, strings)
            else if token == PROP then
              if p + 16 > |b| then Malformed else
              var len, name := Word(b, p + 4), Word(b, p + 8);
              if p + 12 + len > |b| || (strings + name) % TWO32 >= |b| then Malformed
              else if IsTarget(Top(stack)) && RunsPast(b, strings + name, prop) then Astray
              else if IsTarget(Top(stack)) && TextAt(b, strings + name) == prop then Found(p + 12, len)
              else Scan(b, p + 12 + Pad4(len), stack, path, prop, strings)
            else Malformed
  {
    hide Enter, TextAt, TextLength, RunsPast, Pad4, Word, Top, IsTarget;
  }

  /** The size the header reports. */
  function TotalSize(b: seq<u8>): (Status, nat) {
    if |b| < HEADER then (INVALID_ARG, 0)
    else if Word(b, 0) != MAGIC || Word(b, 4) > |b| then (FORMAT, 0)
    else (OK, Word(b, 4))
  }

  lemma TotalSizeIsLength(f: Forest)
    requires Readable(f)
    ensures TotalSize(Blob(f)) == (OK, |Blob(f)|)
  {
    HeaderFields(StructOf(f, 0) + Be32(END), StringsOf(f));
  }
}
