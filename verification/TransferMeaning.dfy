/** What a completed load or store under translation means to the guest: its registers, and the bytes at the places its
    addresses translated to. */
module TransferMeaning {
  import opened Words
  import opened FlatMemory
  import opened Translation
  import opened TranslationCache
  import opened Pinning
  import opened BusSpec
  import opened ExclusiveMonitor
  import opened RegisterFile
  import opened TranslatedTransfer
  import opened InstructionMeaning
  import PairAccess

  /** The number whose bytes are at the places, least significant first. */
  ghost function NumberAt(m: Ram, places: seq<u64>): nat {
    LittleEndian(seq(|places|, i requires 0 <= i < |places| => ByteAt(m.data, places[i])))
  }

  lemma PieceIs(m: Ram, pas: seq<u64>, n: nat, signed: bool, w32: bool)
    requires TransferSize(n) && |pas| == n && Pow256(n) <= TWO64
    ensures Narrow(PairAccess.Loaded(m, pas, signed), w32) == Delivers(NumberAt(m, pas), n, signed, w32)
  {
    hide Narrow, Delivers, SignExtend, LittleEndian;
    var bs := seq(|pas|, i requires 0 <= i < |pas| => ByteAt(m.data, pas[i]));
    assert Gathered(m, pas) == bs;
    LittleEndianBound(bs);
    NarrowIs(NumberAt(m, pas), n, signed, w32);
  }

  /** LDR, LDRS and LDAR of a general register: it holds the number found where the access translated, sign-extended if
      asked and cut to its width; the base has moved as the index mode says, after the load; memory is as it was. */
  lemma LoadedMeans(m: Ram, m': Ram, r: Regs, r': Regs, insn: Insn, mon: Monitor, mon': Monitor, pas: seq<u64>)
    requires IsGeneral(insn) && !IsStore(insn.op) && |pas| == insn.size
    requires Completed(m, m', r, r', insn, mon, mon', pas)
    ensures
      var value := Delivers(NumberAt(m, pas), insn.size, insn.signed, insn.w32);
      m' == m && r'.pc == r.pc && BaseMoves(With(r, insn.rd, value), r, r', insn)
  {
    hide Place, InstructionMeaning.Moved, Delivers, NumberAt, Address, Written, Narrow, AllLoaded;
    PlaceIsAddress(r, insn);
    TransferFits(insn.size);
    var a := AccessOf(r, insn);
    assert a == Loads(Address(r, insn), insn.size, 1);
    var values :| |values| == LoadedPieces(a) && AllLoaded(m, pas, values, a.n, Signs(insn))
                  && r' == Delivered(r, insn, values, Moves(a, mon));
    FirstPiece(m, pas, values, insn.size, insn.signed);
    PieceIs(m, pas, insn.size, insn.signed, insn.w32);
  }

  lemma FirstPiece(m: Ram, pas: seq<u64>, values: seq<u64>, n: nat, signed: bool)
    requires TransferSize(n) && |pas| == n && |values| == 1 && AllLoaded(m, pas, values, n, signed)
    ensures Pow256(n) <= TWO64 && values[0] == PairAccess.Loaded(m, pas, signed)
  {
    TransferFits(n);
    assert PairAccess.PieceLoaded(m, pas, values, 0, n, signed);
    assert pas[0 * n..(0 + 1) * n] == pas;
  }

  /** LDP and LDPSW: the first register from the first half of the places, the second from the rest. */
  lemma LoadedPairMeans(m: Ram, m': Ram, r: Regs, r': Regs, insn: Insn, mon: Monitor, mon': Monitor, pas: seq<u64>)
    requires WellFormedInsn(insn) && (insn.op == Ldp || insn.op == Ldpsw) && !insn.vector && |pas| == 2 * insn.size
    requires Completed(m, m', r, r', insn, mon, mon', pas)
    ensures
      var n := insn.size;
      var first := Delivers(NumberAt(m, pas[..n]), n, insn.signed, insn.w32);
      var second := Delivers(NumberAt(m, pas[n..]), n, insn.signed, insn.w32);
      m' == m && BaseOver(With(With(r, insn.rd, first), insn.rt2, second), r, r', insn)
  {
    hide Delivers, NumberAt, Address, Written, Narrow, AllLoaded;
    var n, a := insn.size, AccessOf(r, insn);
    assert a == Loads(Address(r, insn), n, 2);
    var values :| |values| == LoadedPieces(a) && AllLoaded(m, pas, values, a.n, Signs(insn))
                  && r' == Delivered(r, insn, values, Moves(a, mon));
    TwoPieces(m, pas, values, n, insn.signed);
    PieceIs(m, pas[..n], n, insn.signed, insn.w32);
    PieceIs(m, pas[n..], n, insn.signed, insn.w32);
  }

  lemma TwoPieces(m: Ram, pas: seq<u64>, values: seq<u64>, n: nat, signed: bool)
    requires TransferSize(n) && |pas| == 2 * n && |values| == 2 && AllLoaded(m, pas, values, n, signed)
    ensures Pow256(n) <= TWO64
    ensures values[0] == PairAccess.Loaded(m, pas[..n], signed) && values[1] == PairAccess.Loaded(m, pas[n..], signed)
  {
    TransferFits(n);
    assert PairAccess.PieceLoaded(m, pas, values, 0, n, signed);
    assert PairAccess.PieceLoaded(m, pas, values, 1, n, signed);
    assert 0 * n == 0 && (0 + 1) * n == n && 1 * n == n && (1 + 1) * n == |pas|;
    assert pas[n..|pas|] == pas[n..];
  }

  /** The bytes at the places are `bs`, and no other byte has changed. */
  ghost predicate Hold(m: Ram, m': Ram, places: seq<u64>, bs: seq<u8>) {
    && |places| == |bs| && m'.regions == m.regions && m'.data.Keys == m.data.Keys
    && (forall i :: 0 <= i < |places| ==> places[i] in m'.data && m'.data[places[i]] == bs[i])
    && (forall x :: x in m.data && x !in places ==> m'.data[x] == m.data[x])
  }

  /** STR and STLR of a general register: its low bytes are where the access translated, and of the registers only the
      base has moved. */
  lemma StoredMeans(m: Ram, m': Ram, r: Regs, r': Regs, insn: Insn, mon: Monitor, mon': Monitor, pas: seq<u64>)
    requires IsGeneral(insn) && IsStore(insn.op) && Completed(m, m', r, r', insn, mon, mon', pas)
    ensures Hold(m, m', pas, ToBytes(Source(r, insn.rd, false, insn.w32), insn.size)) && BaseMoves(r, r, r', insn)
  {
    hide Place, InstructionMeaning.Moved, Address, Written, AllLoaded, ToBytes, PairAccess.RunBytes, Source, Read;
    PlaceIsAddress(r, insn);
    SourceIsRead(r, insn.rd, false, insn.w32);
    OneWordBytes(Read(r, insn.rd, insn.w32), insn.size);
  }

  /** STP: the bytes of the first register, then those of the second. */
  lemma StoredPairMeans(m: Ram, m': Ram, r: Regs, r': Regs, insn: Insn, mon: Monitor, mon': Monitor, pas: seq<u64>)
    requires WellFormedInsn(insn) && insn.op == Stp && !insn.vector && Completed(m, m', r, r', insn, mon, mon', pas)
    ensures
      var first := ToBytes(Source(r, insn.rd, false, insn.w32), insn.size);
      var second := ToBytes(Source(r, insn.rt2, false, insn.w32), insn.size);
      && Hold(m, m', pas, first + second)
      && BaseOver(r, r, r', insn)
  {
    hide Address, Written, AllLoaded, ToBytes, PairAccess.RunBytes, Source, Read;
    SourceIsRead(r, insn.rd, false, insn.w32);
    SourceIsRead(r, insn.rt2, false, insn.w32);
    TwoWordBytes(Read(r, insn.rd, insn.w32), Read(r, insn.rt2, insn.w32), insn.size);
  }

  lemma TwoWordBytes(u: u64, v: u64, n: nat)
    ensures PairAccess.RunBytes([u, v], n) == ToBytes(u, n) + ToBytes(v, n)
  {
    hide ToBytes;
    OneWordBytes(u, n);
    assert [u, v][..1] == [u];
  }

  /** The places are those that the addresses of the access, from the guest's own address on, translated to. */
  lemma PlacesAre(t: Tlb, c: Control, m: Ram, el: El, r: Regs, insn: Insn, mon: Monitor, pas: seq<u64>)
    requires Shaped(t) && IsGeneral(insn) && Placed(t, c, m, el, AccessOf(r, insn), mon, pas)
    ensures |pas| == insn.size
    ensures forall i :: 0 <= i < |pas| ==>
              Ask(t, c, m, (Place(r, insn) + i) % TWO64, Access(el, IsStore(insn.op), false)) == Served(pas[i])
  {
    hide Place, Address, Ask, Shaped, Read, AccessOf, AskByte;
    PlaceIsAddress(r, insn);
    var a := AccessOf(r, insn);
    OneAccess(r, insn);
    forall i | 0 <= i < |pas|
      ensures Ask(t, c, m, (Place(r, insn) + i) % TWO64, Access(el, IsStore(insn.op), false)) == Served(pas[i])
    {
      ByteIsAsked(t, c, m, a.addr, i, TranslationAccess(el, a));
    }
  }

  lemma OneAccess(r: Regs, insn: Insn)
    requires IsGeneral(insn)
    ensures
      var a := AccessOf(r, insn);
      && a.addr == Address(r, insn) && a.n == insn.size && RunLength(a) == 1 && !a.StoreExclusive?
      && (IsWrite(a) <==> IsStore(insn.op))
  {
    hide Address, Read;
  }

  lemma ByteIsAsked(t: Tlb, c: Control, m: Ram, va: u64, i: nat, acc: Access)
    requires Shaped(t)
    ensures AskByte(t, c, m, va, i, acc) == Ask(t, c, m, (va + i) % TWO64, acc)
  {
    hide Ask, Shaped;
  }
}
