/** The interrupt controller's priority protocol: the scan, acknowledge and completion, and its register writes. */
module GicProtocol {
  import opened Words

  type Byte = x: int | 0 <= x < 0x100

  const LINES: nat := 64
  const SPURIOUS: nat := 1023
  const IDLE: nat := 256

  /** The delivery state; group, configuration and identification registers gate nothing and are not part of it. */
  datatype Gic = Gic(
    lines: nat, enable: seq<bool>, pending: seq<bool>, active: seq<bool>,
    priority: seq<Byte>, target: seq<Byte>, ctl: nat, cpuCtl: nat, pmr: Byte)

  predicate Shaped(g: Gic) {
    && (g.lines == 32 || g.lines == 64)
    && |g.enable| == LINES && |g.pending| == LINES && |g.active| == LINES
    && |g.priority| == LINES && |g.target| == LINES
  }

  function Reset(lines: nat): Gic {
    Gic(lines, seq(LINES, i => false), seq(LINES, i => false), seq(LINES, i => false),
        seq(LINES, i => 0x80), seq(LINES, i => 1), 0, 0, 0)
  }

  /** Lowest priority value among the first `n` lines' active ones, 256 when none is active. */
  function FloorUpTo(g: Gic, n: nat): (r: nat)
    requires Shaped(g) && n <= LINES
    ensures r <= IDLE
    ensures forall i :: 0 <= i < n && g.active[i] ==> r <= g.priority[i]
    ensures r == IDLE || exists i :: 0 <= i < n && g.active[i] && g.priority[i] == r
  {
    if n == 0 then IDLE else
    var r := FloorUpTo(g, n - 1);
    if g.active[n - 1] && g.priority[n - 1] < r then g.priority[n - 1] else r
  }

  function Running(g: Gic): (r: nat)
    requires Shaped(g)
  {
    FloorUpTo(g, LINES)
  }

  /** Line `i` could interrupt if nothing were active. */
  predicate Asking(g: Gic, i: nat)
    requires Shaped(g)
  {
    i < g.lines && g.enable[i] && g.pending[i] && !g.active[i] && g.target[i] % 2 == 1 && g.priority[i] < g.pmr
  }

  predicate Eligible(g: Gic, i: nat)
    requires Shaped(g)
  {
    Asking(g, i) && g.priority[i] < Running(g)
  }

  /** Line `i` takes precedence over line `j`. */
  predicate Beats(g: Gic, i: nat, j: nat)
    requires Shaped(g) && i < LINES && j < LINES
  {
    g.priority[i] < g.priority[j] || (g.priority[i] == g.priority[j] && i < j)
  }

  /** `id` is the line of highest precedence among the first `n`, or spurious when none of them qualifies. */
  ghost predicate Best(g: Gic, n: nat, id: nat)
    requires Shaped(g) && n <= g.lines
  {
    if id == SPURIOUS then forall i :: 0 <= i < n ==> !Eligible(g, i)
    else id < n && Eligible(g, id) && forall i :: 0 <= i < n && i != id && Eligible(g, i) ==> Beats(g, id, i)
  }

  function PickUpTo(g: Gic, n: nat): (id: nat)
    requires Shaped(g) && n <= g.lines
    ensures Best(g, n, id)
  {
    if n == 0 then SPURIOUS else
    var p := PickUpTo(g, n - 1);
    if Eligible(g, n - 1) && (p == SPURIOUS || g.priority[n - 1] < g.priority[p]) then n - 1 else p
  }

  /** What the next acknowledge returns. */
  function Pick(g: Gic): (id: nat)
    requires Shaped(g)
    ensures Best(g, g.lines, id)
  {
    PickUpTo(g, g.lines)
  }

  function Acknowledged(g: Gic): (r: Gic)
    requires Shaped(g)
    ensures Shaped(r)
  {
    var id := Pick(g);
    if id == SPURIOUS then g else g.(active := g.active[id := true], pending := g.pending[id := false])
  }

  function Completed(g: Gic, id: nat): (r: Gic)
    requires Shaped(g)
    ensures Shaped(r)
  {
    if id < LINES then g.(active := g.active[id := false]) else g
  }

  predicate NoneActive(g: Gic)
    requires Shaped(g)
  {
    forall i :: 0 <= i < LINES ==> !g.active[i]
  }

  lemma IdleRunning(g: Gic)
    requires Shaped(g)
    ensures NoneActive(g) <==> Running(g) == IDLE
  {
  }

  /** Acknowledging and completing one line, with nothing else active, takes exactly that line off the queue. */
  lemma OneRound(g: Gic)
    requires Shaped(g) && NoneActive(g) && Pick(g) != SPURIOUS
    ensures
      var id := Pick(g);
      var g' := Completed(Acknowledged(g), id);
      && g' == g.(pending := g.pending[id := false]) && NoneActive(g')
      && (forall i :: Asking(g', i) <==> Asking(g, i) && i != id)
  {
    hide PickUpTo;
    var id := Pick(g);
    assert g.active[id := true][id := false] == g.active;
  }

  function PendingUpTo(p: seq<bool>, n: nat): nat
    requires n <= |p|
  {
    if n == 0 then 0 else PendingUpTo(p, n - 1) + if p[n - 1] then 1 else 0
  }

  lemma {:induction false} PendingDrops(p: seq<bool>, n: nat, id: nat)
    requires n <= |p| && id < |p| && p[id]
    ensures PendingUpTo(p[id := false], n) == PendingUpTo(p, n) - if id < n then 1 else 0
  {
    if n > 0 {
      PendingDrops(p, n - 1, id);
    }
  }

  /** The ids the loop "read IAR; stop at 1023; write EOIR" acknowledges, from a state with nothing active. */
  function Drain(g: Gic): (ids: seq<nat>)
    requires Shaped(g) && NoneActive(g)
    decreases PendingUpTo(g.pending, LINES)
  {
    var id := Pick(g);
    if id == SPURIOUS then [] else
    OneRound(g);
    PendingDrops(g.pending, LINES, id);
    [id] + Drain(Completed(Acknowledged(g), id))
  }

  /** The drain acknowledges exactly the asking lines. */
  lemma {:induction false} DrainComplete(g: Gic)
    requires Shaped(g) && NoneActive(g)
    ensures forall i :: i in Drain(g) <==> Asking(g, i)
    decreases PendingUpTo(g.pending, LINES)
  {
    hide PickUpTo, FloorUpTo;
    IdleRunning(g);
    var id := Pick(g);
    assert forall i :: Asking(g, i) ==> Eligible(g, i);
    if id != SPURIOUS {
      OneRound(g);
      PendingDrops(g.pending, LINES, id);
      DrainComplete(Completed(Acknowledged(g), id));
    }
  }

  predicate InOrder(g: Gic, ids: seq<nat>)
    requires Shaped(g)
  {
    && (forall a :: 0 <= a < |ids| ==> ids[a] < LINES)
    && (forall a, b :: 0 <= a < b < |ids| ==> Beats(g, ids[a], ids[b]))
  }

  /** The drain goes in strictly falling precedence -- (priority, id) -- so each line is served once. */
  lemma {:induction false} DrainOrder(g: Gic)
    requires Shaped(g) && NoneActive(g)
    ensures InOrder(g, Drain(g))
    decreases PendingUpTo(g.pending, LINES)
  {
    hide PickUpTo, FloorUpTo, Drain;
    IdleRunning(g);
    var id := Pick(g);
    DrainUnfolds(g);
    if id != SPURIOUS {
      OneRound(g);
      PendingDrops(g.pending, LINES, id);
      var g' := Completed(Acknowledged(g), id);
      DrainOrder(g');
      DrainComplete(g');
      forall b | 0 <= b < |Drain(g')| ensures Beats(g, id, Drain(g')[b]) {
        assert Drain(g')[b] in Drain(g');
        assert Asking(g, Drain(g')[b]) && Eligible(g, Drain(g')[b]);
      }
    }
  }

  lemma DrainUnfolds(g: Gic)
    requires Shaped(g) && NoneActive(g)
    ensures Pick(g) == SPURIOUS ==> Drain(g) == []
    ensures Pick(g) != SPURIOUS ==>
              NoneActive(Completed(Acknowledged(g), Pick(g))) &&
              Drain(g) == [Pick(g)] + Drain(Completed(Acknowledged(g), Pick(g)))
  {
    if Pick(g) != SPURIOUS {
      OneRound(g);
    }
  }

  predicate MaskBit(mask: nat, b: nat) {
    Bit(mask, Pow2(b))
  }

  /** A banked write: lines of the word at `base` named by `mask` are forced to `level`. */
  function Poked(s: seq<bool>, base: nat, mask: nat, level: bool): (r: seq<bool>)
    ensures |r| == |s|
    ensures forall i :: 0 <= i < |s| ==> r[i] == if Named(base, mask, i) then level else s[i]
  {
    seq(|s|, i requires 0 <= i < |s| => if Named(base, mask, i) then level else s[i])
  }

  predicate Named(base: nat, mask: nat, i: nat) {
    base <= i < base + 32 && MaskBit(mask, i - base)
  }

  /** A priority word: one byte for each of four lines. */
  function Reprioritised(p: seq<Byte>, first: nat, v: nat): (r: seq<Byte>)
    ensures |r| == |p|
    ensures forall i :: 0 <= i < |p| && !(first <= i < first + 4) ==> r[i] == p[i]
  {
    seq(|p|, i requires 0 <= i < |p| =>
        if first <= i < first + 4 then (v / Pow256(i - first) % 0x100) as Byte else p[i])
  }

  datatype DistReg = Group | Enabler | Disabler | Raiser | Lowerer | Activator | Deactivator
    | Priority | Target | Config | Control | Ignored

  /** Which register of the distributor window an offset reaches. */
  function DistRegAt(g: Gic, offset: nat): DistReg {
    if 0x80 <= offset < 0xA0 then Group
    else if 0x100 <= offset < 0x180 then Enabler
    else if 0x180 <= offset < 0x200 then Disabler
    else if 0x200 <= offset < 0x280 then Raiser
    else if 0x280 <= offset < 0x300 then Lowerer
    else if 0x300 <= offset < 0x380 then Activator
    else if 0x380 <= offset < 0x400 then Deactivator
    else if 0x400 <= offset < 0x500 then Priority
    else if 0x800 <= offset < 0x800 + 4 * g.lines then Target
    else if 0xC00 <= offset < 0xC40 then Config
    else if offset < 4 then Control
    else Ignored
  }

  /** First line of the 32-line word at `offset` in the bank that starts at `start`. */
  function BankBase(offset: nat, start: nat): nat
    requires start <= offset
  {
    (offset - start) / 4 * 32
  }

  function DistWritten(g: Gic, offset: nat, v: u32): (r: Gic)
    requires Shaped(g)
    ensures Shaped(r) && r.lines == g.lines && r.pmr == g.pmr && r.cpuCtl == g.cpuCtl
  {
    match DistRegAt(g, offset)
    case Enabler => g.(enable := Poked(g.enable, BankBase(offset, 0x100), v, true))
    case Disabler => g.(enable := Poked(g.enable, BankBase(offset, 0x180), v, false))
    case Raiser => g.(pending := Poked(g.pending, BankBase(offset, 0x200), v, true))
    case Lowerer => g.(pending := Poked(g.pending, BankBase(offset, 0x280), v, false))
    case Activator => g.(active := Poked(g.active, BankBase(offset, 0x300), v, true))
    case Deactivator => g.(active := Poked(g.active, BankBase(offset, 0x380), v, false))
    case Priority => g.(priority := Reprioritised(g.priority, (offset - 0x400) / 4 * 4, v))
    case Target =>
      var line := (offset - 0x800) / 4;
      if 32 <= line < g.lines then g.(target := g.target[line := v % 0x100]) else g
    case Control => g.(ctl := v % 0x40)
    case _ => g
  }

  function CpuWritten(g: Gic, offset: nat, v: u32): (r: Gic)
    requires Shaped(g)
    ensures Shaped(r) && r.lines == g.lines
  {
    if offset / 4 == 0 then g.(cpuCtl := v % 2)
    else if offset / 4 == 1 then g.(pmr := v % 0x100)
    else if offset / 4 == 4 then Completed(g, v % 0x400)
    else g
  }

  /** Everything that can move the delivery state. */
  datatype Event = DistWrite(offset: nat, value: u32) | CpuWrite(offset: nat, value: u32)
      | ReadIar | Drive(id: nat, level: bool)

  function Step(g: Gic, e: Event): (r: Gic)
    requires Shaped(g)
    ensures Shaped(r)
  {
    match e
    case DistWrite(offset, v) => DistWritten(g, offset, v)
    case CpuWrite(offset, v) => CpuWritten(g, offset, v)
    case ReadIar => Acknowledged(g)
    case Drive(id, level) => if id < LINES then g.(pending := g.pending[id := level]) else g
  }

  function After(g: Gic, es: seq<Event>): (r: Gic)
    requires Shaped(g)
    ensures Shaped(r)
  {
    if es == [] then g else Step(After(g, es[..|es| - 1]), es[|es| - 1])
  }

  lemma AfterOneMore(g: Gic, es: seq<Event>, k: nat)
    requires Shaped(g) && k < |es|
    ensures After(g, es[..k + 1]) == Step(After(g, es[..k]), es[k])
  {
    assert es[..k + 1][..k] == es[..k];
  }

  /** The event that ends service of `id`: its EOIR, or an ICACTIVER bit. */
  predicate Ends(e: Event, id: nat) {
    match e
    case CpuWrite(offset, v) => offset / 4 == 4 && v % 0x400 == id
    case DistWrite(offset, v) => 0x380 <= offset < 0x400 && Named(BankBase(offset, 0x380), v, id)
    case _ => false
  }

  lemma StaysActive(g: Gic, e: Event, id: nat)
    requires Shaped(g) && id < LINES && g.active[id] && !Ends(e, id)
    ensures Step(g, e).active[id]
  {
    hide Pick, Named;
  }

  lemma {:induction false} ActiveSince(g: Gic, es: seq<Event>, i: nat, j: nat, id: nat)
    requires Shaped(g) && i <= j <= |es| && id < LINES && After(g, es[..i]).active[id]
    requires forall k :: i <= k < j ==> !Ends(es[k], id)
    ensures After(g, es[..j]).active[id]
    decreases j - i
  {
    hide Step, Ends;
    if i < j {
      ActiveSince(g, es, i, j - 1, id);
      AfterOneMore(g, es, j - 1);
      StaysActive(After(g, es[..j - 1]), es[j - 1], id);
    }
  }

  lemma PickEnters(g: Gic)
    requires Shaped(g) && Pick(g) != SPURIOUS
    ensures Pick(g) < LINES && !g.active[Pick(g)] && Step(g, ReadIar).active[Pick(g)]
  {
    assert Eligible(g, Pick(g));
  }

  /** In every run, between two acknowledgements of the same id something ended its service. */
  lemma NotTwiceInService(g: Gic, es: seq<Event>, i: nat, j: nat, id: nat)
    requires Shaped(g) && i < j < |es| && es[i] == ReadIar && es[j] == ReadIar && id != SPURIOUS
    requires Pick(After(g, es[..i])) == id && Pick(After(g, es[..j])) == id
    ensures exists k :: i < k < j && Ends(es[k], id)
  {
    hide Ends, Pick, After, Step, Best, Shaped;
    AfterOneMore(g, es, i);
    PickEnters(After(g, es[..i]));
    PickEnters(After(g, es[..j]));
    if forall k :: i < k < j ==> !Ends(es[k], id) {
      ActiveSince(g, es, i + 1, j, id);
      assert false;
    }
  }

  predicate DistinctActive(g: Gic)
    requires Shaped(g)
  {
    forall i, j :: 0 <= i < j < LINES && g.active[i] && g.active[j] ==> g.priority[i] != g.priority[j]
  }

  /** An event that neither activates a line by hand nor changes the priority of an active one. */
  predicate Gentle(g: Gic, e: Event)
    requires Shaped(g)
  {
    match e
    case DistWrite(offset, v) =>
      && DistRegAt(g, offset) != Activator
      && (DistRegAt(g, offset) == Priority ==>
        var p := Reprioritised(g.priority, (offset - 0x400) / 4 * 4, v);
        forall i :: 0 <= i < LINES && g.active[i] ==> p[i] == g.priority[i])
    case _ => true
  }

  /** An acknowledgement strictly beats every line in service. */
  lemma AcknowledgeBeatsAll(g: Gic, i: nat)
    requires Shaped(g) && Pick(g) != SPURIOUS && i < LINES && g.active[i]
    ensures g.priority[Pick(g)] < g.priority[i]
  {
    assert Eligible(g, Pick(g));
  }

  /** The lines `on` share no priority. */
  predicate DistinctAmong(p: seq<Byte>, on: seq<bool>)
    requires |p| == LINES && |on| == LINES
  {
    forall i, j :: 0 <= i < j < LINES && on[i] && on[j] ==> p[i] != p[j]
  }

  /** Line `i` is activated by a write of `v` to the activation word of the lines at `base`. */
  predicate Fresh(g: Gic, base: nat, v: u32, i: int)
    requires Shaped(g)
  {
    0 <= i < LINES && Named(base, v, i) && !g.active[i]
  }

  /** The lines a write activates have priorities distinct from each other's and from those in service. */
  ghost predicate FreshApart(g: Gic, base: nat, v: u32)
    requires Shaped(g)
  {
    && (forall i, j :: Fresh(g, base, v, i) && Fresh(g, base, v, j) && i != j ==> g.priority[i] != g.priority[j])
    && (forall i, j :: Fresh(g, base, v, i) && 0 <= j < LINES && g.active[j] ==> g.priority[i] != g.priority[j])
  }

  /** An event that keeps the lines in service in a strict order. */
  ghost predicate KeepsOrder(g: Gic, e: Event)
    requires Shaped(g)
  {
    match e
    case DistWrite(offset, v) =>
      if DistRegAt(g, offset) == Activator then FreshApart(g, BankBase(offset, 0x300), v)
      else if DistRegAt(g, offset) == Priority then
        DistinctAmong(Reprioritised(g.priority, (offset - 0x400) / 4 * 4, v), g.active)
      else true
    case _ => true
  }

  ghost predicate KeepsOrderAll(g: Gic, es: seq<Event>)
    requires Shaped(g)
  {
    forall k :: 0 <= k < |es| ==> KeepsOrder(After(g, es[..k]), es[k])
  }

  lemma GentleKeepsOrder(g: Gic, e: Event)
    requires Shaped(g) && DistinctActive(g) && Gentle(g, e)
    ensures KeepsOrder(g, e)
  {
  }

  /** One event keeps active priorities distinct if and only if it keeps the order. */
  lemma OrderKeptExactly(g: Gic, e: Event)
    requires Shaped(g) && DistinctActive(g)
    ensures DistinctActive(Step(g, e)) <==> KeepsOrder(g, e)
  {
    hide Pick, DistinctActive, KeepsOrder;
    match e
    case DistWrite(offset, v) => OrderKeptByDist(g, offset, v);
    case CpuWrite(offset, v) => OrderKeptByCpu(g, offset, v);
    case ReadIar => OrderKeptByRead(g);
    case Drive(id, level) => OrderKeptByDrive(g, id, level);
  }

  lemma OrderKeptByRead(g: Gic)
    requires Shaped(g) && DistinctActive(g)
    ensures DistinctActive(Acknowledged(g)) && KeepsOrder(g, ReadIar)
  {
    hide PickUpTo, FloorUpTo;
    if Pick(g) != SPURIOUS {
      forall i | 0 <= i < LINES && g.active[i] ensures g.priority[Pick(g)] < g.priority[i] {
        AcknowledgeBeatsAll(g, i);
      }
    }
  }

  lemma OrderKeptByCpu(g: Gic, offset: nat, v: u32)
    requires Shaped(g) && DistinctActive(g)
    ensures DistinctActive(CpuWritten(g, offset, v)) && KeepsOrder(g, CpuWrite(offset, v))
  {
  }

  lemma OrderKeptByDrive(g: Gic, id: nat, level: bool)
    requires Shaped(g) && DistinctActive(g)
    ensures DistinctActive(Step(g, Drive(id, level))) && KeepsOrder(g, Drive(id, level))
  {
    hide Pick;
  }

  lemma OrderKeptByDist(g: Gic, offset: nat, v: u32)
    requires Shaped(g) && DistinctActive(g)
    ensures DistinctActive(DistWritten(g, offset, v)) <==> KeepsOrder(g, DistWrite(offset, v))
  {
    hide Named, Poked, Reprioritised, FreshApart;
    if DistRegAt(g, offset) == Activator {
      ActivatorExactly(g, BankBase(offset, 0x300), v);
    } else if DistRegAt(g, offset) == Deactivator {
      DeactivatorKeeps(g, BankBase(offset, 0x380), v);
    }
  }

  lemma DeactivatorKeeps(g: Gic, base: nat, v: u32)
    requires Shaped(g) && DistinctActive(g)
    ensures DistinctActive(g.(active := Poked(g.active, base, v, false)))
  {
    hide Named;
  }

  lemma ActivatorExactly(g: Gic, base: nat, v: u32)
    requires Shaped(g) && DistinctActive(g)
    ensures DistinctActive(g.(active := Poked(g.active, base, v, true))) <==> FreshApart(g, base, v)
  {
    hide Named;
    var on := Poked(g.active, base, v, true);
    assert forall i :: 0 <= i < LINES ==> on[i] == (g.active[i] || Fresh(g, base, v, i));
    if DistinctActive(g.(active := on)) {
      forall i, j | Fresh(g, base, v, i) && 0 <= j < LINES && (g.active[j] || Fresh(g, base, v, j)) && i != j
        ensures g.priority[i] != g.priority[j]
      {
        assert on[i] && on[j];
      }
    }
  }

  lemma GentleKeepsDistinct(g: Gic, e: Event)
    requires Shaped(g) && DistinctActive(g) && Gentle(g, e)
    ensures DistinctActive(Step(g, e))
  {
    hide Gentle, KeepsOrder, DistinctActive, Step;
    GentleKeepsOrder(g, e);
    OrderKeptExactly(g, e);
  }

  /** Over every gentle run the lines in service have pairwise distinct priorities, so nesting is a strict order. */
  lemma {:induction false} ServiceStaysOrdered(g: Gic, es: seq<Event>)
    requires Shaped(g) && DistinctActive(g)
    requires forall k :: 0 <= k < |es| ==> Gentle(After(g, es[..k]), es[k])
    ensures DistinctActive(After(g, es))
    decreases |es|
  {
    hide Gentle, DistinctActive, Step;
    if es != [] {
      var n := |es| - 1;
      forall k | 0 <= k < n ensures Gentle(After(g, es[..n][..k]), es[..n][k]) {
        assert es[..n][..k] == es[..k];
      }
      ServiceStaysOrdered(g, es[..n]);
      GentleKeepsDistinct(After(g, es[..n]), es[n]);
    }
  }

  /** Throughout a run nesting is a strict order if and only if every event of it keeps the order. */
  lemma ServiceOrderedExactly(g: Gic, es: seq<Event>)
    requires Shaped(g) && DistinctActive(g)
    ensures (forall k :: 0 <= k <= |es| ==> DistinctActive(After(g, es[..k]))) <==> KeepsOrderAll(g, es)
  {
    hide KeepsOrder, DistinctActive, Step, After;
    if KeepsOrderAll(g, es) {
      var n := 0;
      AfterNone(g, es);
      while n < |es|
        invariant n <= |es| && forall k :: 0 <= k <= n ==> DistinctActive(After(g, es[..k]))
      {
        AfterOneMore(g, es, n);
        OrderKeptExactly(After(g, es[..n]), es[n]);
        n := n + 1;
      }
    } else {
      var k :| 0 <= k < |es| && !KeepsOrder(After(g, es[..k]), es[k]);
      AfterOneMore(g, es, k);
      if DistinctActive(After(g, es[..k])) {
        OrderKeptExactly(After(g, es[..k]), es[k]);
        assert !DistinctActive(After(g, es[..k + 1]));
      }
    }
  }

  lemma AfterNone(g: Gic, es: seq<Event>)
    requires Shaped(g)
    ensures After(g, es[..0]) == g
  {
  }

  /** Activating two lines by hand breaks the order: both start at the reset priority. */
  lemma ActivatorBreaksOrder()
    ensures DistinctActive(Reset(64)) && !DistinctActive(Step(Reset(64), DistWrite(0x300, 3)))
  {
    var g := Step(Reset(64), DistWrite(0x300, 3));
    assert Pow2(0) == 1 && Pow2(1) == 2;
    assert Named(0, 3, 0) && Named(0, 3, 1);
    assert g.active[0] && g.active[1] && g.priority[0] == g.priority[1];
  }

  // ----- the cached running priority -----

  /** The two events that refresh the cache: an acknowledgement of a line, and EOIR. */
  predicate Refreshes(g: Gic, e: Event)
    requires Shaped(g)
  {
    (e.ReadIar? && Pick(g) != SPURIOUS) || (e.CpuWrite? && e.offset / 4 == 4)
  }

  /** The cache after one event. */
  function Cached(g: Gic, was: nat, e: Event): nat
    requires Shaped(g)
  {
    if Refreshes(g, e) then Running(Step(g, e)) else was
  }

  /** The cache after a run from reset, where it holds 0. */
  function CachedAfter(g: Gic, es: seq<Event>): nat
    requires Shaped(g)
  {
    if es == [] then 0 else
    var before := es[..|es| - 1];
    Cached(After(g, before), CachedAfter(g, before), es[|es| - 1])
  }

  /** How long the run is up to its last refresh, that event included; 0 when there is none. */
  function LastRefresh(g: Gic, es: seq<Event>): (n: nat)
    requires Shaped(g)
    ensures n <= |es|
  {
    if es == [] then 0 else
    var before := es[..|es| - 1];
    if Refreshes(After(g, before), es[|es| - 1]) then |es| else LastRefresh(g, before)
  }

  lemma {:induction false} LastRefreshIsLast(g: Gic, es: seq<Event>)
    requires Shaped(g)
    ensures
      var n := LastRefresh(g, es);
      && (n > 0 ==> Refreshes(After(g, es[..n - 1]), es[n - 1]))
      && forall k :: n <= k < |es| ==> !Refreshes(After(g, es[..k]), es[k])
  {
    hide Refreshes, After, Shaped;
    if es != [] {
      var before := es[..|es| - 1];
      LastRefreshIsLast(g, before);
      forall k | 0 <= k < |before| ensures before[..k] == es[..k] && before[k] == es[k] {
      }
    }
  }

  /** In every run the cache is the floor at the last refresh, and 0 before any: it is the floor the scan recomputes
      exactly while the floor is what it was then. */
  lemma {:induction false} CacheIsLastRefresh(g: Gic, es: seq<Event>)
    requires Shaped(g)
    ensures CachedAfter(g, es) == if LastRefresh(g, es) == 0 then 0 else Running(After(g, es[..LastRefresh(g, es)]))
  {
    hide Refreshes, Step, Running;
    if es != [] {
      var before := es[..|es| - 1];
      if Refreshes(After(g, before), es[|es| - 1]) {
        assert es[..|es|] == es;
      } else {
        CacheIsLastRefresh(g, before);
        assert before[..LastRefresh(g, before)] == es[..LastRefresh(g, before)];
      }
    }
  }

  /** An event that leaves the lines in service, and their priorities, as they were. */
  predicate LeavesFloor(g: Gic, e: Event)
    requires Shaped(g)
  {
    match e
    case DistWrite(offset, v) =>
      var r := DistWritten(g, offset, v);
      r.active == g.active && forall i :: 0 <= i < LINES && g.active[i] ==> r.priority[i] == g.priority[i]
    case ReadIar => Pick(g) == SPURIOUS
    case CpuWrite(offset, _) => offset / 4 != 4
    case _ => true
  }

  lemma {:induction false} SameFloor(g: Gic, r: Gic, n: nat)
    requires Shaped(g) && Shaped(r) && n <= LINES && r.active == g.active
    requires forall i :: 0 <= i < LINES && g.active[i] ==> r.priority[i] == g.priority[i]
    ensures FloorUpTo(r, n) == FloorUpTo(g, n)
  {
    if n > 0 {
      SameFloor(g, r, n - 1);
    }
  }

  lemma FloorLeft(g: Gic, e: Event)
    requires Shaped(g) && LeavesFloor(g, e)
    ensures Running(Step(g, e)) == Running(g)
  {
    hide Pick, FloorUpTo;
    SameFloor(g, Step(g, e), LINES);
  }

  /** The cache stays current as long as only its own two events, and events that leave the floor, follow a refresh. */
  lemma {:induction false} CacheIsCurrent(g: Gic, es: seq<Event>, n: nat)
    requires Shaped(g) && n < |es| && Refreshes(After(g, es[..n]), es[n])
    requires forall k :: n < k < |es| ==>
               Refreshes(After(g, es[..k]), es[k]) || LeavesFloor(After(g, es[..k]), es[k])
    ensures CachedAfter(g, es) == Running(After(g, es))
    decreases |es|
  {
    hide Refreshes, LeavesFloor, Step, Running, Shaped, After;
    var m := |es| - 1;
    AfterOneMore(g, es, m);
    assert es[..m + 1] == es;
    if n < m && !Refreshes(After(g, es[..m]), es[m]) {
      forall k | 0 <= k < m ensures es[..m][..k] == es[..k] && es[..m][k] == es[k] {
      }
      CacheIsCurrent(g, es[..m], n);
      FloorLeft(After(g, es[..m]), es[m]);
    }
  }

  /** The output line to the core. */
  predicate IrqLevel(g: Gic)
    requires Shaped(g)
  {
    g.ctl % 2 == 1 && g.cpuCtl % 2 == 1 && Pick(g) != SPURIOUS
  }

  /** The line is raised exactly when both enables are set and some line may be served now. */
  lemma IrqLevelMeans(g: Gic)
    requires Shaped(g)
    ensures IrqLevel(g) <==> g.ctl % 2 == 1 && g.cpuCtl % 2 == 1 && exists i :: Eligible(g, i)
  {
    hide PickUpTo;
    var id := Pick(g);
    if id != SPURIOUS {
      assert Eligible(g, id);
    }
  }
}
