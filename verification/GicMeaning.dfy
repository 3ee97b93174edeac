/** The interrupt controller as its driver sees it: which write reaches which line, and which line is served. */
module GicMeaning {
  import opened Words
  import opened GicProtocol

  /** Line `i` may be served now: enabled, pending, not in service, sent to this core, above the mask and above every
      line in service. A lower number is a higher priority. */
  predicate MayInterrupt(g: Gic, i: int)
    requires Shaped(g)
  {
    && 0 <= i < g.lines && g.enable[i] && g.pending[i] && !g.active[i] && g.target[i] % 2 == 1
    && g.priority[i] < g.pmr
    && forall j :: 0 <= j < 64 && g.active[j] ==> g.priority[i] < g.priority[j]
  }

  /** Before: by priority, and among equals by number. */
  predicate Before(g: Gic, i: nat, j: nat)
    requires Shaped(g) && i < 64 && j < 64
  {
    g.priority[i] < g.priority[j] || (g.priority[i] == g.priority[j] && i < j)
  }

  lemma EligibleMeans(g: Gic, i: nat)
    requires Shaped(g)
    ensures Eligible(g, i) <==> MayInterrupt(g, i)
  {
    hide FloorUpTo;
    var floor := FloorUpTo(g, 64);
    if floor != 256 {
      var j :| 0 <= j < 64 && g.active[j] && g.priority[j] == floor;
    }
  }

  /** What IAR returns, and what reading it does. */
  lemma AcknowledgeMeans(g: Gic)
    requires Shaped(g)
    ensures
      var id, g' := Pick(g), Step(g, ReadIar);
      if id == 1023 then
        g' == g && forall i :: 0 <= i < 64 ==> !MayInterrupt(g, i)
      else
        && id < 64 && MayInterrupt(g, id)
        && (forall i :: 0 <= i < 64 && i != id && MayInterrupt(g, i) ==> Before(g, id, i))
        && g' == g.(active := g.active[id := true], pending := g.pending[id := false])
  {
    hide PickUpTo, FloorUpTo, MayInterrupt, Eligible;
    forall i: nat ensures Eligible(g, i) <==> MayInterrupt(g, i) {
      EligibleMeans(g, i);
    }
    OnlyLines(g);
  }

  lemma OnlyLines(g: Gic)
    requires Shaped(g)
    ensures forall i :: MayInterrupt(g, i) ==> 0 <= i < g.lines
  {
  }

  /** The service loop serves exactly the lines that may interrupt when it starts, best first, each once. */
  lemma DrainMeans(g: Gic)
    requires Shaped(g) && forall i :: 0 <= i < 64 ==> !g.active[i]
    ensures forall i: nat :: i in Drain(g) <==> MayInterrupt(g, i)
    ensures forall a, b :: 0 <= a < b < |Drain(g)| ==>
              Drain(g)[a] < 64 && Drain(g)[b] < 64 && Before(g, Drain(g)[a], Drain(g)[b])
  {
    hide Drain, Asking;
    DrainComplete(g);
    DrainOrder(g);
    forall i: nat ensures Asking(g, i) <==> MayInterrupt(g, i) {
      AskingMeans(g, i);
    }
  }

  lemma AskingMeans(g: Gic, i: nat)
    requires Shaped(g) && NoneActive(g)
    ensures Asking(g, i) <==> MayInterrupt(g, i)
  {
  }

  /** The line to the core is up when the distributor and the interface are on and some line may interrupt. */
  lemma OutputMeans(g: Gic)
    requires Shaped(g)
    ensures IrqLevel(g) <==> g.ctl % 2 == 1 && g.cpuCtl % 2 == 1 && exists i :: MayInterrupt(g, i)
  {
    hide PickUpTo, FloorUpTo, Eligible, MayInterrupt;
    IrqLevelMeans(g);
    forall i: nat ensures Eligible(g, i) <==> MayInterrupt(g, i) {
      EligibleMeans(g, i);
    }
    OnlyLines(g);
  }

  // ----- the register map -----

  /** Bit `i % 32` of a word written for the lines from 32 * `word` on. */
  predicate Names(word: nat, v: u32, i: nat) {
    i / 32 == word && v / Pow2(i % 32) % 2 == 1
  }

  /** The lines that word `word` of a bank names forced to a level. */
  function Forced(s: seq<bool>, word: nat, v: u32, level: bool): seq<bool> {
    seq(|s|, i requires 0 <= i < |s| => if Names(word, v, i) then level else s[i])
  }

  lemma PokedIsForced(s: seq<bool>, word: nat, v: u32, level: bool)
    ensures Poked(s, 32 * word, v, level) == Forced(s, word, v, level)
  {
    hide Pow2;
    forall i | 0 <= i < |s| ensures Named(32 * word, v, i) <==> Names(word, v, i) {
      WordOf(i, word);
    }
  }

  lemma WordOf(i: nat, word: nat)
    ensures 32 * word <= i < 32 * word + 32 <==> i / 32 == word
    ensures i / 32 == word ==> i - 32 * word == i % 32
  {
  }

  lemma BankPlaces(g: Gic, k: nat, low: nat)
    requires k < 32 && low < 4
    ensures DistRegAt(g, 0x100 + 4 * k + low) == Enabler && BankBase(0x100 + 4 * k + low, 0x100) == 32 * k
    ensures DistRegAt(g, 0x180 + 4 * k + low) == Disabler && BankBase(0x180 + 4 * k + low, 0x180) == 32 * k
    ensures DistRegAt(g, 0x200 + 4 * k + low) == Raiser && BankBase(0x200 + 4 * k + low, 0x200) == 32 * k
    ensures DistRegAt(g, 0x280 + 4 * k + low) == Lowerer && BankBase(0x280 + 4 * k + low, 0x280) == 32 * k
    ensures DistRegAt(g, 0x300 + 4 * k + low) == Activator && BankBase(0x300 + 4 * k + low, 0x300) == 32 * k
    ensures DistRegAt(g, 0x380 + 4 * k + low) == Deactivator && BankBase(0x380 + 4 * k + low, 0x380) == 32 * k
  {
    assert (4 * k + low) / 4 == k;
  }

  /** The set and clear banks: word `k` of a bank is at 4 * `k`, one bit a line, and what is not named stays. */
  lemma BankWrites(g: Gic, k: nat, low: nat, v: u32)
    requires Shaped(g) && k < 32 && low < 4
    ensures Step(g, DistWrite(0x100 + 4 * k + low, v)) == g.(enable := Forced(g.enable, k, v, true))
    ensures Step(g, DistWrite(0x180 + 4 * k + low, v)) == g.(enable := Forced(g.enable, k, v, false))
    ensures Step(g, DistWrite(0x200 + 4 * k + low, v)) == g.(pending := Forced(g.pending, k, v, true))
    ensures Step(g, DistWrite(0x280 + 4 * k + low, v)) == g.(pending := Forced(g.pending, k, v, false))
    ensures Step(g, DistWrite(0x300 + 4 * k + low, v)) == g.(active := Forced(g.active, k, v, true))
    ensures Step(g, DistWrite(0x380 + 4 * k + low, v)) == g.(active := Forced(g.active, k, v, false))
  {
    hide Poked, Forced, DistRegAt, BankBase;
    BankPlaces(g, k, low);
    PokedIsForced(g.enable, k, v, true);
    PokedIsForced(g.enable, k, v, false);
    PokedIsForced(g.pending, k, v, true);
    PokedIsForced(g.pending, k, v, false);
    PokedIsForced(g.active, k, v, true);
    PokedIsForced(g.active, k, v, false);
  }

  /** Priorities: line `4 * k + b` is byte `b` of the word at 0x400 + 4 * `k`. */
  lemma PriorityWrites(g: Gic, k: nat, low: nat, v: u32)
    requires Shaped(g) && k < 64 && low < 4
    ensures
      var g' := Step(g, DistWrite(0x400 + 4 * k + low, v));
      && g' == g.(priority := g'.priority)
      && forall i :: 0 <= i < 64 ==>
           g'.priority[i] == if i / 4 != k then g.priority[i]
             else if i % 4 == 0 then v % 0x100 else if i % 4 == 1 then v / 0x100 % 0x100
             else if i % 4 == 2 then v / 0x1_0000 % 0x100 else v / 0x100_0000 % 0x100
  {
    hide Pow256;
    BytePlaces();
    assert (4 * k + low) / 4 * 4 == 4 * k;
  }

  lemma BytePlaces()
    ensures Pow256(0) == 1 && Pow256(1) == 0x100 && Pow256(2) == 0x1_0000 && Pow256(3) == 0x100_0000
  {
    assert Pow256(2) == 0x1_0000;
  }

  /** Targets: one word for each shared line, of which the low byte counts; those of the private lines are fixed. */
  lemma TargetWrites(g: Gic, n: nat, low: nat, v: u32)
    requires Shaped(g) && n < g.lines && low < 4
    ensures Step(g, DistWrite(0x800 + 4 * n + low, v)) ==
            if n < 32 then g else g.(target := g.target[n := v % 0x100])
  {
  }

  /** The other registers that gate delivery, and EOIR; nothing else moves the delivery state. */
  lemma ControlWrites(g: Gic, low: nat, v: u32, offset: nat)
    requires Shaped(g) && low < 4
    ensures Step(g, DistWrite(low, v)) == g.(ctl := v % 64)
    ensures Step(g, CpuWrite(low, v)) == g.(cpuCtl := v % 2)
    ensures Step(g, CpuWrite(4 + low, v)) == g.(pmr := v % 0x100)
    ensures Step(g, CpuWrite(0x10 + low, v)) ==
            if v % 1024 < 64 then g.(active := g.active[v % 1024 := false]) else g
    ensures 8 <= offset < 0x10 || 0x14 <= offset ==> Step(g, CpuWrite(offset, v)) == g
    ensures 4 <= offset < 0x100 || 0x500 <= offset < 0x800 || 0x800 + 4 * g.lines <= offset ==>
              Step(g, DistWrite(offset, v)) == g
  {
    hide Poked, Reprioritised;
  }

  /** Out of reset every line is off, idle, at priority 0x80 and sent to this core, the mask is shut, and both enables
      are off. */
  lemma ResetMeans(lines: nat)
    requires lines == 32 || lines == 64
    ensures
      var g := Reset(lines);
      && Shaped(g) && g.lines == lines && g.ctl == 0 && g.cpuCtl == 0 && g.pmr == 0
      && forall i :: 0 <= i < 64 ==>
           !g.enable[i] && !g.pending[i] && !g.active[i] && g.priority[i] == 0x80 && g.target[i] == 1
  {
  }

  /** So whatever the devices drive, and however often IAR is read, nothing is served and nothing raised until a
      register is written. */
  lemma {:induction false} SilentOutOfReset(lines: nat, es: seq<Event>)
    requires (lines == 32 || lines == 64) && forall k :: 0 <= k < |es| ==> es[k].Drive? || es[k].ReadIar?
    ensures
      var g := After(Reset(lines), es);
      Pick(g) == 1023 && !IrqLevel(g) && g == Reset(lines).(pending := g.pending)
  {
    hide PickUpTo, Pick, MayInterrupt;
    if es == [] {
      NeverServed(Reset(lines));
    } else {
      var n := |es| - 1;
      SilentOutOfReset(lines, es[..n]);
      NeverServed(After(Reset(lines), es));
    }
  }

  lemma NeverServed(g: Gic)
    requires Shaped(g) && forall i :: 0 <= i < 64 ==> !g.enable[i]
    ensures Pick(g) == 1023
  {
    AcknowledgeMeans(g);
  }

  /** A driver's set-up, from reset: with the mask open and line `n` enabled a raised line is the next one served; with
      the mask at the reset priority or above it is not. */
  lemma FirstInterrupt(lines: nat, n: nat, mask: nat)
    requires (lines == 32 || lines == 64) && n < lines && mask < 0x100
    ensures
      var g := After(Reset(lines), [CpuWrite(4, mask), DistWrite(0x100 + 4 * (n / 32), Pow2(n % 32) % 0x1_0000_0000),
                                    Drive(n, true)]);
      Pick(g) == if mask > 0x80 then n else 1023
  {
    hide PickUpTo, Pow2, Names, MayInterrupt, Forced, After, Shaped;
    var v: u32 := Pow2(n % 32) % 0x1_0000_0000;
    var g := SetUp(lines, n, mask, v);
    NamesItself(n);
    ForcedAt(Reset(lines).enable, n / 32, v, n);
    Raised(g, n, mask);
    AcknowledgeMeans(g);
    assert MayInterrupt(g, n) <==> mask > 0x80;
    assert Pick(g) != 1023 ==> MayInterrupt(g, Pick(g));
  }

  lemma SetUp(lines: nat, n: nat, mask: nat, v: u32) returns (g: Gic)
    requires (lines == 32 || lines == 64) && n < lines && mask < 0x100
    ensures Shaped(g) && g == Reset(lines).(pmr := mask, enable := Forced(Reset(lines).enable, n / 32, v, true),
                                            pending := Reset(lines).pending[n := true])
    ensures After(Reset(lines), [CpuWrite(4, mask), DistWrite(0x100 + 4 * (n / 32), v), Drive(n, true)]) == g
  {
    hide Poked, Named, Forced, Names, After, DistWritten, CpuWritten;
    var es := [CpuWrite(4, mask), DistWrite(0x100 + 4 * (n / 32), v), Drive(n, true)];
    Nothing(Reset(lines), es);
    AfterOneMore(Reset(lines), es, 0);
    AfterOneMore(Reset(lines), es, 1);
    AfterOneMore(Reset(lines), es, 2);
    assert es[..3] == es;
    ControlWrites(Reset(lines), 0, mask, 0);
    var g1 := Reset(lines).(pmr := mask);
    BankWrites(g1, n / 32, 0, v);
    g := g1.(enable := Forced(g1.enable, n / 32, v, true), pending := g1.pending[n := true]);
  }

  lemma Nothing(g: Gic, es: seq<Event>)
    requires Shaped(g)
    ensures After(g, es[..0]) == g
  {
  }

  lemma ForcedAt(s: seq<bool>, word: nat, v: u32, i: nat)
    requires i < |s| && Names(word, v, i)
    ensures |Forced(s, word, v, true)| == |s| && Forced(s, word, v, true)[i]
  {
  }

  lemma Raised(g: Gic, n: nat, mask: nat)
    requires Shaped(g) && n < g.lines && mask < 0x100 && g.pmr == mask && g.enable[n]
    requires forall i :: 0 <= i < 64 ==> !g.active[i] && g.priority[i] == 0x80 && g.target[i] == 1
    requires forall i :: 0 <= i < 64 ==> (g.pending[i] <==> i == n)
    ensures forall i :: MayInterrupt(g, i) <==> i == n && mask > 0x80
  {
  }

  lemma NamesItself(n: nat)
    requires n < 64
    ensures Names(n / 32, Pow2(n % 32) % 0x1_0000_0000, n)
  {
    hide Pow2;
    PowerFits(n % 32, 32);
    assert Pow2(32) == 0x1_0000_0000 by { BigPow2(); }
  }

  lemma BigPow2()
    ensures Pow2(32) == 0x1_0000_0000
  {
    assert Pow2(8) == 0x100;
    assert Pow2(16) == 0x1_0000;
    assert Pow2(24) == 0x100_0000;
  }

  lemma {:induction false} PowerFits(n: nat, m: nat)
    requires n < m
    ensures Pow2(n) < Pow2(m)
    decreases m
  {
    if n < m - 1 {
      PowerFits(n, m - 1);
    }
  }
}
