/** The exception-level state of a core and the pure entry, return and stack-bank functions over it. */
module ExceptionState {
  import opened Words

  type Level = x: int | 0 <= x < 4
  type Flags = x: int | 0 <= x < 16

  /** A PSTATE or SPSR word by its fields; `low`, `mid` and `high` are the bits this model only carries. */
  datatype Psr = Psr(
    h: bool, reserved: bool, el: Level, aarch32: bool, bit5: bool,
    f: bool, i: bool, a: bool, d: bool, low: nat, il: bool, mid: nat, flags: Flags, high: nat)

  const ERET_WORD: nat := 0xD69F_03E0

  type Bank = s: seq<u64> | |s| == 4 witness [0, 0, 0, 0]
  type PsrBank = s: seq<Psr> | |s| == 4 witness [CLEAR, CLEAR, CLEAR, CLEAR]

  const CLEAR := Psr(false, false, 0, false, false, false, false, false, false, 0, false, 0, 0, 0)

  /** Registers the exception machinery reads or writes; `slots` is the raw storage of the other table rows. */
  datatype State = State(
    pc: u64, sp: u64, nzcv: Flags, pstate: Psr,
    spEl: Bank, elr: Bank, spsr: PsrBank, vbar: Bank, esr: Bank, far: Bank,
    par: u64, counter: u64, slots: map<int, u64>)

  datatype Kind = Sync | Irq | Fiq | SError

  function Put<T>(b: seq<T>, l: Level, v: T): (r: seq<T>)
    requires |b| == 4
    ensures |r| == 4 && r[l] == v && forall k :: 0 <= k < 4 && k != l ==> r[k] == b[k]
  {
    b[l := v]
  }

  /** The stack bank a PSTATE selects: SP_EL0 at EL0 or in a t mode, the level's own otherwise. */
  function BankOf(p: Psr): Level {
    if !p.h || p.el == 0 then 0 else p.el
  }

  /** Value of stack pointer `b`: the live register for the selected bank, the table for the others. */
  function Sp(s: State, b: Level): u64 {
    if BankOf(s.pstate) == b then s.sp else s.spEl[b]
  }

  /** The stack pointers as a plain map. */
  ghost function Stacks(s: State): (r: seq<u64>)
    ensures |r| == 4 && forall b: Level :: r[b] == Sp(s, b)
  {
    seq(4, b requires 0 <= b < 4 => Sp(s, b))
  }

  /** Adopts PSTATE `p`, moving the live stack pointer when the selected bank changes. */
  function Switched(s: State, p: Psr): State {
    if BankOf(s.pstate) == BankOf(p) then s.(pstate := p)
    else s.(spEl := Put(s.spEl, BankOf(s.pstate), s.sp), sp := s.spEl[BankOf(p)], pstate := p)
  }

  function VectorOffset(sameLevel: bool, h: bool, kind: Kind): nat {
    (if sameLevel then if h then 0x200 else 0 else 0x400)
    + (match kind case Sync => 0 case Irq => 0x80 case Fiq => 0x100 case SError => 0x180)
  }

  /** Where exceptions from `l` are delivered. */
  function Route(l: Level): (t: Level)
    ensures Deliverable(t) && (l != 2 ==> l <= t)
  {
    if l == 3 then 3 else 1
  }

  predicate Deliverable(t: Level) {
    t == 1 || t == 3
  }

  /** The h form of the target with all interrupts masked and IL clear. */
  function EntryState(target: Level): Psr {
    CLEAR.(h := true, el := target, f := true, i := true, a := true, d := true)
  }

  /** Exception entry. */
  function Taken(s: State, kind: Kind, target: Level, esr: u64, far: Option<u64>): State
    requires Deliverable(target)
  {
    var vector := Wrap(s.vbar[target] + VectorOffset(s.pstate.el == target, s.pstate.h, kind));
    var e := Switched(s, EntryState(target));
    e.(spsr := Put(e.spsr, target, s.pstate.(flags := s.nzcv)), elr := Put(e.elr, target, s.pc),
       esr := if kind == Sync || kind == SError then Put(e.esr, target, esr) else e.esr,
       far := if far.Some? then Put(e.far, target, far.value) else e.far,
       pc := vector)
  }

  function Esr(ec: nat, iss: nat): (r: u64)
    requires ec < 64
    ensures r / 0x400_0000 == ec && r / 0x200_0000 % 2 == 1 && r % 0x200_0000 == iss % 0x200_0000
  {
    ec * 0x400_0000 + 0x200_0000 + iss % 0x200_0000
  }

  /** An implemented AArch64 mode: not AArch32, no reserved bit, EL0 only in its t form. */
  predicate ModeValid(p: Psr) {
    !p.aarch32 && !p.reserved && !(p.el == 0 && p.h)
  }

  /** An SPSR an ERET at `cur` may return through. */
  predicate Returnable(saved: Psr, cur: Level) {
    !saved.il && ModeValid(saved) && saved.el <= cur
  }

  function Undefined(s: State, insn: nat): State {
    Taken(s, Sync, Route(s.pstate.el), Esr(0, insn), None)
  }

  /** Exception return, with its refusals. */
  function Returned(s: State): State
    requires s.pstate.el == 2 ==> Returnable(s.spsr[2], 2)
  {
    var cur := s.pstate.el;
    if cur == 0 then Undefined(s, ERET_WORD) else
    var saved := s.spsr[cur];
    if Returnable(saved, cur) then Switched(s, saved.(flags := 0)).(nzcv := saved.flags, pc := s.elr[cur])
    else if saved.il then Taken(s, Sync, cur, Esr(0x1A, 0), None)
    else Taken(s, Sync, cur, Esr(0, ERET_WORD), None)
  }

  /** Every bank keeps its value across a switch; only the selection moves. */
  lemma SwitchKeepsStacks(s: State, p: Psr)
    ensures Stacks(Switched(s, p)) == Stacks(s) && Switched(s, p).pstate == p
  {
    forall b: Level ensures Sp(Switched(s, p), b) == Sp(s, b) {
    }
  }

  lemma SameStacks(s: State, r: State)
    requires r.sp == s.sp && r.spEl == s.spEl && BankOf(r.pstate) == BankOf(s.pstate)
    ensures Stacks(r) == Stacks(s)
  {
  }

  lemma EntryKeepsStacks(s: State, kind: Kind, target: Level, esr: u64, far: Option<u64>)
    requires Deliverable(target)
    ensures Stacks(Taken(s, kind, target, esr, far)) == Stacks(s)
    ensures BankOf(Taken(s, kind, target, esr, far).pstate) == target
  {
    hide Put, Stacks;
    SwitchKeepsStacks(s, EntryState(target));
    SameStacks(Switched(s, EntryState(target)), Taken(s, kind, target, esr, far));
  }

  lemma ReturnKeepsStacks(s: State)
    requires s.pstate.el == 2 ==> Returnable(s.spsr[2], 2)
    ensures Stacks(Returned(s)) == Stacks(s)
  {
    hide Put, Stacks, Taken, Esr;
    var cur := s.pstate.el;
    var saved := s.spsr[cur];
    if cur == 0 {
      EntryKeepsStacks(s, Sync, 1, Esr(0, ERET_WORD), None);
    } else if Returnable(saved, cur) {
      SwitchKeepsStacks(s, saved.(flags := 0));
      SameStacks(Switched(s, saved.(flags := 0)), Returned(s));
    } else {
      EntryKeepsStacks(s, Sync, cur, if saved.il then Esr(0x1A, 0) else Esr(0, ERET_WORD), None);
    }
  }

  /** A PSTATE this model boots into and stays in: an implemented mode, no EL2, no illegal-state or flag bits. */
  predicate Legal(p: Psr) {
    !p.il && p.flags == 0 && ModeValid(p) && p.el != 2
  }

  lemma EntryShape(s: State, kind: Kind, target: Level, esr: u64, far: Option<u64>)
    requires Deliverable(target)
    ensures
      var e := Taken(s, kind, target, esr, far);
      && e.pstate == EntryState(target) && Legal(e.pstate) && e.nzcv == s.nzcv
      && e.spsr[target] == s.pstate.(flags := s.nzcv) && e.elr[target] == s.pc
      && (forall l: Level :: l != target ==>
            e.spsr[l] == s.spsr[l] && e.elr[l] == s.elr[l] && e.esr[l] == s.esr[l] && e.far[l] == s.far[l])
      && e.vbar == s.vbar && e.slots == s.slots && e.counter == s.counter && e.par == s.par
  {
  }

  /** Where an exception lands: the target's table, a group by where it was taken from, 0x80 bytes a kind. */
  lemma EntryVector(s: State, kind: Kind, target: Level, esr: u64, far: Option<u64>)
    requires Deliverable(target)
    ensures
      var e := Taken(s, kind, target, esr, far);
      var group := if s.pstate.el != target then 0x400 else if s.pstate.h then 0x200 else 0;
      var place := match kind case Sync => 0 case Irq => 0x80 case Fiq => 0x100 case SError => 0x180;
      && e.pc == (s.vbar[target] + group + place) % TWO64
      && e.esr[target] == (if kind == Irq || kind == Fiq then s.esr[target] else esr)
      && e.far[target] == (if far == None then s.far[target] else far.value)
    ensures Taken(s, kind, target, esr, far).pstate ==
            Psr(true, false, target, false, false, true, true, true, true, 0, false, 0, 0, 0)
  {
  }

  /** What an ERET at EL1 or EL3 does, by the fields of the saved word: an illegal one is refused with its syndrome,
      any other is the state the word names. */
  lemma ReturnMeans(s: State)
    requires s.pstate.el == 1 || s.pstate.el == 3
    ensures
      var saved, r := s.spsr[s.pstate.el], Returned(s);
      var legal := !saved.il && !saved.aarch32 && !saved.reserved && (saved.el == 0 ==> !saved.h)
                   && saved.el <= s.pstate.el;
      && (legal ==> r.pc == s.elr[s.pstate.el] && r.nzcv == saved.flags && r.pstate == saved.(flags := 0))
      && (!legal ==>
            && r.esr[s.pstate.el] == (if saved.il then 0x6A00_0000 else 0x029F_03E0)
            && r.elr[s.pstate.el] == s.pc && r.pstate.el == s.pstate.el
            && r.pc == (s.vbar[s.pstate.el] + if s.pstate.h then 0x200 else 0) % TWO64)
  {
    var cur := s.pstate.el;
    EntryVector(s, Sync, cur, Esr(0x1A, 0), None);
    EntryVector(s, Sync, cur, Esr(0, ERET_WORD), None);
    SwitchKeepsStacks(s, s.spsr[cur].(flags := 0));
  }

  /** The part of the core the interrupted code sees. */
  predicate SameContext(s: State, r: State) {
    r.pc == s.pc && r.pstate == s.pstate && r.nzcv == s.nzcv && r.sp == s.sp
  }

  /** What is known of a handler that is about to return to the state `s` it interrupted. */
  ghost predicate AboutToReturn(s: State, h: State, target: Level) {
    && h.pstate.el == target
    && h.spsr[target] == s.pstate.(flags := s.nzcv) && h.elr[target] == s.pc
    && Sp(h, BankOf(s.pstate)) == Sp(s, BankOf(s.pstate))
  }

  /** A return through an intact save area gives the interrupted context back exactly. */
  lemma ReturnRestores(s: State, h: State, target: Level)
    requires Legal(s.pstate) && target == Route(s.pstate.el) && AboutToReturn(s, h, target)
    ensures SameContext(s, Returned(h)) && Stacks(Returned(h)) == Stacks(h)
  {
    hide Put, Stacks;
    assert h.spsr[target].(flags := 0) == s.pstate;
    SwitchKeepsStacks(h, s.pstate);
    ReturnKeepsStacks(h);
  }

  /** Entry followed at once by return is the identity on the interrupted context exactly when its PSTATE was legal. */
  lemma RoundTripExactlyIfLegal(s: State, kind: Kind, esr: u64, far: Option<u64>)
    ensures
      var e := Taken(s, kind, Route(s.pstate.el), esr, far);
      e.pstate.el != 2 && (SameContext(s, Returned(e)) <==> Legal(s.pstate))
  {
    hide Put, Stacks, Taken;
    var target := Route(s.pstate.el);
    var e := Taken(s, kind, target, esr, far);
    EntryShape(s, kind, target, esr, far);
    EntryKeepsStacks(s, kind, target, esr, far);
    assert Stacks(e)[BankOf(s.pstate)] == Stacks(s)[BankOf(s.pstate)];
    if Legal(s.pstate) {
      ReturnRestores(s, e, target);
    } else if !Returnable(e.spsr[target], target) {
      RefusedStays(e);
    }
  }

  /** A refused return is an exception to the same level, in a legal state. */
  lemma RefusedStays(e: State)
    requires Deliverable(e.pstate.el) && !Returnable(e.spsr[e.pstate.el], e.pstate.el)
    ensures Returned(e).pstate == EntryState(e.pstate.el)
  {
    hide Taken;
    var cur := e.pstate.el;
    EntryShape(e, Sync, cur, if e.spsr[cur].il then Esr(0x1A, 0) else Esr(0, ERET_WORD), None);
  }

  /** An ERET at EL3 accepts an EL2 mode, a level this model otherwise has no use for. */
  lemma MonitorReturnsToEl2(s: State)
    requires s.pstate.el == 3 && s.spsr[3] == CLEAR.(h := true, el := 2)
    ensures Returned(s).pstate.el == 2
  {
  }

  /** Exactly when a return leads to EL2: from EL3 through a saved PSTATE that names it. Every other return, refused or
      not, lands in a legal state. */
  lemma ReturnIsLegalExactly(s: State)
    requires Legal(s.pstate)
    ensures Legal(Returned(s).pstate) <==>
            !(s.pstate.el == 3 && Returnable(s.spsr[3], 3) && s.spsr[3].el == 2)
    ensures !Legal(Returned(s).pstate) ==> Returned(s).pstate.el == 2 && Returned(s).pc == s.elr[3]
  {
    var cur := s.pstate.el;
    if cur == 0 {
      EntryShape(s, Sync, Route(0), Esr(0, ERET_WORD), None);
    } else if !Returnable(s.spsr[cur], cur) {
      RefusedStays(s);
    } else {
      SwitchKeepsStacks(s, s.spsr[cur].(flags := 0));
    }
  }

  /** A handler's course: its own work, and the exceptions it is itself interrupted by, to any depth. */
  datatype Course =
    | Done
    | Work(next: State, rest: Course)
    | Nested(kind: Kind, esr: u64, far: Option<u64>, handler: Course, rest: Course)

  /** Work may change anything, but stays at its level in a legal state. */
  predicate WorkAllowed(s: State, next: State) {
    next.pstate.el == s.pstate.el && Legal(next.pstate)
  }

  /** The epilogue puts back the link registers the prologue saved. */
  function Epilogue(h: State, e: State, target: Level): State {
    h.(spsr := Put(h.spsr, target, e.spsr[target]), elr := Put(h.elr, target, e.elr[target]))
  }

  /** The handler leaves the interrupted code's stack pointer as it found it. */
  predicate GivesBack(s: State, e: State, h: State) {
    Sp(h, BankOf(s.pstate)) == Sp(e, BankOf(s.pstate))
  }

  /** Runs a course; nothing when some work breaks its rule or some handler does not give the interrupted stack back. */
  function Follow(s: State, c: Course): (r: Option<State>)
    requires Legal(s.pstate)
    ensures r.Some? ==> Legal(r.value.pstate) && r.value.pstate.el == s.pstate.el
    decreases c
  {
    match c
    case Done => Some(s)
    case Work(next, rest) => if WorkAllowed(s, next) then Follow(next, rest) else None
    case Nested(kind, esr, far, handler, rest) =>
      var target := Route(s.pstate.el);
      var e := Taken(s, kind, target, esr, far);
      var h := Follow(e, handler);
      if h.None? || !GivesBack(s, e, h.value) then None else
      EpilogueReturns(s, kind, esr, far, h.value);
      Follow(Returned(Epilogue(h.value, e, target)), rest)
  }

  lemma EpilogueReturns(s: State, kind: Kind, esr: u64, far: Option<u64>, h: State)
    requires Legal(s.pstate) && h.pstate.el == Route(s.pstate.el)
    requires GivesBack(s, Taken(s, kind, Route(s.pstate.el), esr, far), h)
    ensures
      var target := Route(s.pstate.el);
      var back := Epilogue(h, Taken(s, kind, target, esr, far), target);
      && back.pstate.el != 2 && SameContext(s, Returned(back)) && Stacks(Returned(back)) == Stacks(h)
  {
    hide Stacks, Taken, Returned;
    var target := Route(s.pstate.el);
    var e := Taken(s, kind, target, esr, far);
    EntryShape(s, kind, target, esr, far);
    EntryKeepsStacks(s, kind, target, esr, far);
    assert Stacks(e)[BankOf(s.pstate)] == Stacks(s)[BankOf(s.pstate)];
    var back := Epilogue(h, e, target);
    SameStacks(h, back);
    ReturnRestores(s, back, target);
  }

  /** Well-nested exceptions are transparent: whatever the handler and the exceptions inside it did, PC, PSTATE, NZCV
      and SP come back. */
  lemma NestedIsTransparent(s: State, kind: Kind, esr: u64, far: Option<u64>, handler: Course)
    requires Legal(s.pstate) && Follow(s, Nested(kind, esr, far, handler, Done)).Some?
    ensures SameContext(s, Follow(s, Nested(kind, esr, far, handler, Done)).value)
    ensures Taken(s, kind, Route(s.pstate.el), esr, far).elr[Route(s.pstate.el)] == s.pc
  {
    hide GivesBack, Taken, Epilogue, Returned, SameContext, Stacks;
    var target := Route(s.pstate.el);
    var e := Taken(s, kind, target, esr, far);
    EntryShape(s, kind, target, esr, far);
    EpilogueReturns(s, kind, esr, far, Follow(e, handler).value);
    assert Follow(Returned(Epilogue(Follow(e, handler).value, e, target)), Done).Some?;
  }

  /** A system call enters with the PC already past it. */
  function SystemCall(s: State, imm16: nat): State {
    Taken(s.(pc := Wrap(s.pc + 4)), Sync, Route(s.pstate.el), Esr(0x15, imm16 % 0x1_0000), None)
  }

  /** A system call returns to the instruction after it, with everything else as it was. */
  lemma SystemCallResumesAfter(s: State, imm16: nat, handler: Course)
    requires Legal(s.pstate)
    requires Follow(s.(pc := Wrap(s.pc + 4)), Nested(Sync, Esr(0x15, imm16 % 0x1_0000), None, handler, Done)).Some?
    ensures
      var r := Follow(s.(pc := Wrap(s.pc + 4)), Nested(Sync, Esr(0x15, imm16 % 0x1_0000), None, handler, Done)).value;
      && r.pc == Wrap(s.pc + 4) && r.pstate == s.pstate && r.nzcv == s.nzcv && r.sp == s.sp
      && SystemCall(s, imm16).elr[Route(s.pstate.el)] == Wrap(s.pc + 4)
  {
    NestedIsTransparent(s.(pc := Wrap(s.pc + 4)), Sync, Esr(0x15, imm16 % 0x1_0000), None, handler);
  }
}
