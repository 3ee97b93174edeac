/** Carry arithmetic, conditions and the 128-bit products made of 64-bit pieces. */
module Alu {
  import opened Words

  datatype Nzcv = Nzcv(n: bool, z: bool, c: bool, v: bool)
  datatype Sum = Sum(value: u64, flags: Nzcv)

  /** 2^width for the two operand widths. */
  function Modulus(w32: bool): (m: int) {
    if w32 then TWO32 else TWO64
  }

  function Truncate(v: u64, w32: bool): (r: u64)
    ensures r < Modulus(w32)
  {
    if w32 then v % TWO32 else v
  }

  predicate SignBit(v: int, w32: bool) {
    2 * v >= Modulus(w32)
  }

  /** Two's complement value of a width-bit word. */
  function SignedWord(v: int, w32: bool): int {
    Signed(v, Modulus(w32))
  }

  function Unit(b: bool): nat {
    if b then 1 else 0
  }

  /** The adder as it is computed: a wrapping sum, a carry detected from the pieces, an overflow from the signs. */
  function AddWithCarry(x: u64, y: u64, carryIn: bool, w32: bool): Sum {
    var xa, ya := Truncate(x, w32), Truncate(y, w32);
    var total := Wrap(xa + ya + Unit(carryIn));
    var value := Truncate(total, w32);
    var partial := Wrap(xa + ya);
    var carry := if w32 then total / TWO32 != 0 else partial < xa || (carryIn && partial == TWO64 - 1);
    Sum(value, Nzcv(SignBit(value, w32), value == 0, carry,
                    SignBit(xa, w32) == SignBit(ya, w32) && SignBit(value, w32) != SignBit(xa, w32)))
  }

  /** A signed value that a word of the width can hold. */
  predicate FitsSigned(s: int, w32: bool) {
    -Modulus(w32) <= 2 * s < Modulus(w32)
  }

  lemma AdderValue(x: u64, y: u64, carryIn: bool, w32: bool)
    ensures
      var xa, ya, r := Truncate(x, w32), Truncate(y, w32), AddWithCarry(x, y, carryIn, w32);
      && r.value < Modulus(w32)
      && r.value + Modulus(w32) * Unit(r.flags.c) == xa + ya + Unit(carryIn)
  {
    hide SignBit;
    var xa, ya := Truncate(x, w32), Truncate(y, w32);
    WrapOnce(xa + ya);
    WrapOnce(xa + ya + Unit(carryIn));
  }

  lemma OverflowMeaning(xa: nat, ya: nat, carry: nat, value: nat, w32: bool)
    requires xa < Modulus(w32) && ya < Modulus(w32) && value < Modulus(w32) && carry <= 1
    requires value == xa + ya + carry || value + Modulus(w32) == xa + ya + carry
    ensures
      var s := SignedWord(xa, w32) + SignedWord(ya, w32) + carry;
      var v := SignBit(xa, w32) == SignBit(ya, w32) && SignBit(value, w32) != SignBit(xa, w32);
      && (v <==> !FitsSigned(s, w32)) && (!v ==> SignedWord(value, w32) == s)
  {
  }

  /** The adder means what the guest relies on: an exact sum with its carry, and V exactly when the signed sum does
      not fit. */
  lemma AdderIsExact(x: u64, y: u64, carryIn: bool, w32: bool)
    ensures
      var xa, ya, r := Truncate(x, w32), Truncate(y, w32), AddWithCarry(x, y, carryIn, w32);
      var s := SignedWord(xa, w32) + SignedWord(ya, w32) + Unit(carryIn);
      && r.value < Modulus(w32)
      && r.value + Modulus(w32) * Unit(r.flags.c) == xa + ya + Unit(carryIn)
      && (r.flags.v <==> !FitsSigned(s, w32)) && (!r.flags.v ==> SignedWord(r.value, w32) == s)
      && (r.flags.n <==> SignedWord(r.value, w32) < 0) && (r.flags.z <==> r.value == 0)
  {
    hide Truncate, FitsSigned;
    AdderValue(x, y, carryIn, w32);
    OverflowMeaning(Truncate(x, w32), Truncate(y, w32), Unit(carryIn), AddWithCarry(x, y, carryIn, w32).value, w32);
  }

  lemma WrapOnce(s: nat)
    requires s < 2 * TWO64
    ensures Wrap(s) == if s < TWO64 then s else s - TWO64
  {
  }

  /** SUB and SUBS: add the complement with the carry in. */
  function Subtract(x: u64, y: u64, w32: bool): Sum {
    AddWithCarry(x, TWO64 - 1 - y, true, w32)
  }

  lemma ComplementNarrow(y: u64)
    ensures (TWO64 - 1 - y) % TWO32 == TWO32 - 1 - y % TWO32
  {
    ModUnique(TWO64 - 1 - y, TWO32, TWO32 - 1 - y / TWO32, TWO32 - 1 - y % TWO32);
  }

  lemma SubtractIsExact(x: u64, y: u64, w32: bool)
    ensures
      var xa, ya, m, r := Truncate(x, w32), Truncate(y, w32), Modulus(w32), Subtract(x, y, w32);
      && r.value == (if xa >= ya then xa - ya else xa - ya + m)
      && (r.flags.c <==> xa >= ya)
      && (r.flags.z <==> xa == ya)
      && ((r.flags.n == r.flags.v) <==> SignedWord(xa, w32) >= SignedWord(ya, w32))
      && (r.flags.n <==> 2 * r.value >= m)
      && (r.flags.v <==> !FitsSigned(SignedWord(xa, w32) - SignedWord(ya, w32), w32))
  {
    hide AddWithCarry;
    AdderIsExact(x, TWO64 - 1 - y, true, w32);
    if w32 {
      ComplementNarrow(y);
    }
  }

  /** The sixteen conditions: eight tests in pairs, the low bit inverting all but the last. */
  function CondHolds(f: Nzcv, cond: nat): bool {
    var e := cond % 16;
    var base := match e / 2
      case 0 => f.z
      case 1 => f.c
      case 2 => f.n
      case 3 => f.v
      case 4 => f.c && !f.z
      case 5 => f.n == f.v
      case 6 => f.n == f.v && !f.z
      case _ => true;
    if e % 2 == 1 && e != 15 then !base else base
  }

  /** What a condition says of the two words just subtracted: EQ NE HS LO, the sign of the difference MI PL, whether
      the signed difference overflows VS VC, HI LS GE LT GT LE, and always. */
  function Compares(cond: nat, a: int, b: int, w32: bool): bool
    requires cond < 16
  {
    match cond
    case 0 => a == b
    case 1 => a != b
    case 2 => a >= b
    case 3 => a < b
    case 4 => 2 * ((a - b) % Modulus(w32)) >= Modulus(w32)
    case 5 => 2 * ((a - b) % Modulus(w32)) < Modulus(w32)
    case 6 => !FitsSigned(SignedWord(a, w32) - SignedWord(b, w32), w32)
    case 7 => FitsSigned(SignedWord(a, w32) - SignedWord(b, w32), w32)
    case 8 => a > b
    case 9 => a <= b
    case 10 => SignedWord(a, w32) >= SignedWord(b, w32)
    case 11 => SignedWord(a, w32) < SignedWord(b, w32)
    case 12 => SignedWord(a, w32) > SignedWord(b, w32)
    case 13 => SignedWord(a, w32) <= SignedWord(b, w32)
    case _ => true
  }

  /** After a flag-setting subtraction each condition decides the comparison it is named for. */
  lemma ConditionsCompare(x: u64, y: u64, w32: bool, cond: nat)
    ensures CondHolds(Subtract(x, y, w32).flags, cond) <==>
            Compares(cond % 16, Truncate(x, w32), Truncate(y, w32), w32)
  {
    hide Subtract, FitsSigned, Truncate, Modulus;
    SubtractIsExact(x, y, w32);
    Difference(Truncate(x, w32), Truncate(y, w32), w32);
  }

  lemma Difference(a: nat, b: nat, w32: bool)
    requires a < Modulus(w32) && b < Modulus(w32)
    ensures (a - b) % Modulus(w32) == if a >= b then a - b else a - b + Modulus(w32)
  {
  }

  /** Value of a little-endian limb string. */
  function Limbs(a: seq<u64>): nat {
    if a == [] then 0 else Limbs(a[..|a| - 1]) + Pow64(|a| - 1) * a[|a| - 1]
  }

  function Pow64(n: nat): (p: nat)
    ensures p > 0 && (n == 0 ==> p == 1)
  {
    if n == 0 then 1 else TWO64 * Pow64(n - 1)
  }

  /** ADDS on the lowest limb, ADCS on the rest: the carry chains through the flags. */
  function AddLimbs(a: seq<u64>, b: seq<u64>): (r: (seq<u64>, bool))
    requires |a| == |b|
    ensures |r.0| == |a|
  {
    if a == [] then ([], false) else
    var last := |a| - 1;
    var low := AddLimbs(a[..last], b[..last]);
    var top := AddWithCarry(a[last], b[last], low.1, false);
    (low.0 + [top.value], top.flags.c)
  }

  /** The chain computes the exact sum of any number of limbs, the last carry being the overflow. */
  lemma {:induction false} ChainIsExact(a: seq<u64>, b: seq<u64>)
    requires |a| == |b|
    ensures Limbs(AddLimbs(a, b).0) + Pow64(|a|) * Unit(AddLimbs(a, b).1) == Limbs(a) + Limbs(b)
  {
    hide AddWithCarry;
    if a != [] {
      var last := |a| - 1;
      ChainIsExact(a[..last], b[..last]);
      var low := AddLimbs(a[..last], b[..last]);
      var top := AddWithCarry(a[last], b[last], low.1, false);
      AdderIsExact(a[last], b[last], low.1, false);
      var sum := low.0 + [top.value];
      assert sum[..last] == low.0 && sum[last] == top.value;
      CarryUp(Pow64(last), Unit(low.1), Unit(top.flags.c), a[last], b[last], top.value);
    }
  }

  lemma CarryUp(p: nat, carryIn: nat, carryOut: nat, x: nat, y: nat, v: nat)
    requires v + TWO64 * carryOut == x + y + carryIn
    ensures p * v + TWO64 * p * carryOut == p * x + p * y + p * carryIn
  {
    assert p * (v + TWO64 * carryOut) == p * v + p * (TWO64 * carryOut);
    assert p * (TWO64 * carryOut) == TWO64 * p * carryOut;
    assert p * (x + y + carryIn) == p * x + p * y + p * carryIn;
  }

  /** High half of the 128-bit product, from 32-bit partial products. */
  function Umulh(a: u64, b: u64): u64 {
    var aLo, aHi, bLo, bHi := a % TWO32, a / TWO32, b % TWO32, b / TWO32;
    var p0, p1, p2, p3 := Wrap(aLo * bLo), Wrap(aLo * bHi), Wrap(aHi * bLo), Wrap(aHi * bHi);
    var mid := Wrap(p0 / TWO32 + p1 % TWO32 + p2 % TWO32);
    Wrap(p3 + p1 / TWO32 + p2 / TWO32 + mid / TWO32)
  }

  lemma HalfProduct(x: nat, y: nat)
    requires x < TWO32 && y < TWO32
    ensures x * y <= (TWO32 - 1) * (TWO32 - 1)
    ensures Wrap(x * y) == x * y
  {
    MulBound(x, TWO32 - 1, y, TWO32 - 1);
  }

  lemma MulBound(x: nat, m: nat, y: nat, n: nat)
    requires x <= m && y <= n
    ensures 0 <= x * y <= m * n
  {
    assert m * n - x * y == (m - x) * n + x * (n - y);
    assert (m - x) * n >= 0 && x * (n - y) >= 0;
  }

  lemma ProductSplit(aLo: nat, aHi: nat, bLo: nat, bHi: nat)
    ensures (aHi * TWO32 + aLo) * (bHi * TWO32 + bLo)
         == aHi * bHi * TWO64 + (aHi * bLo + aLo * bHi) * TWO32 + aLo * bLo
  {
    assert (aHi * TWO32 + aLo) * (bHi * TWO32 + bLo)
        == aHi * TWO32 * (bHi * TWO32) + aHi * TWO32 * bLo + aLo * (bHi * TWO32) + aLo * bLo;
    assert aHi * TWO32 * (bHi * TWO32) == aHi * bHi * TWO64;
    assert aHi * TWO32 * bLo == aHi * bLo * TWO32 && aLo * (bHi * TWO32) == aLo * bHi * TWO32;
  }

  lemma HighOfParts(p0: nat, p1: nat, p2: nat, p3: nat)
    ensures
      var mid := p0 / TWO32 + p1 % TWO32 + p2 % TWO32;
      (p3 * TWO64 + (p2 + p1) * TWO32 + p0) / TWO64 == p3 + p1 / TWO32 + p2 / TWO32 + mid / TWO32
  {
    var mid := p0 / TWO32 + p1 % TWO32 + p2 % TWO32;
    var high := p3 + p1 / TWO32 + p2 / TWO32 + mid / TWO32;
    var low := mid % TWO32 * TWO32 + p0 % TWO32;
    assert p3 * TWO64 + (p2 + p1) * TWO32 + p0 == high * TWO64 + low;
    ModUnique(high * TWO64 + low, TWO64, high, low);
  }

  /** No 64-bit intermediate of the high multiply wraps. */
  lemma NoStepWraps(aLo: nat, aHi: nat, bLo: nat, bHi: nat)
    requires aLo < TWO32 && aHi < TWO32 && bLo < TWO32 && bHi < TWO32
    ensures
      var p0, p1, p2, p3 := aLo * bLo, aLo * bHi, aHi * bLo, aHi * bHi;
      && 0 <= p0 && 0 <= p1 && 0 <= p2 && 0 <= p3
      && Wrap(p0) == p0 && Wrap(p1) == p1 && Wrap(p2) == p2 && Wrap(p3) == p3
      && StepsFit(p0, p1, p2, p3)
  {
    HalfProduct(aLo, bLo);
    HalfProduct(aLo, bHi);
    HalfProduct(aHi, bLo);
    HalfProduct(aHi, bHi);
    SumsFit(aLo * bLo, aLo * bHi, aHi * bLo, aHi * bHi);
  }

  predicate StepsFit(p0: nat, p1: nat, p2: nat, p3: nat) {
    var mid := p0 / TWO32 + p1 % TWO32 + p2 % TWO32;
    mid < TWO64 && p3 + p1 / TWO32 + p2 / TWO32 + mid / TWO32 < TWO64
  }

  lemma SumsFit(p0: nat, p1: nat, p2: nat, p3: nat)
    requires p0 <= (TWO32 - 1) * (TWO32 - 1) && p1 <= (TWO32 - 1) * (TWO32 - 1)
    requires p2 <= (TWO32 - 1) * (TWO32 - 1) && p3 <= (TWO32 - 1) * (TWO32 - 1)
    ensures StepsFit(p0, p1, p2, p3)
  {
  }

  lemma FitMeansExact(p0: nat, p1: nat, p2: nat, p3: nat)
    requires StepsFit(p0, p1, p2, p3)
    ensures
      var mid := Wrap(p0 / TWO32 + p1 % TWO32 + p2 % TWO32);
      Wrap(p3 + p1 / TWO32 + p2 / TWO32 + mid / TWO32) == (p3 * TWO64 + (p2 + p1) * TWO32 + p0) / TWO64
  {
    HighOfParts(p0, p1, p2, p3);
  }

  /** The unsigned high multiply is exact. */
  lemma UmulhIsExact(a: u64, b: u64)
    ensures Umulh(a, b) == a * b / TWO64
  {
    hide StepsFit, Wrap;
    var aLo, aHi, bLo, bHi := a % TWO32, a / TWO32, b % TWO32, b / TWO32;
    NoStepWraps(aLo, aHi, bLo, bHi);
    FitMeansExact(aLo * bLo, aLo * bHi, aHi * bLo, aHi * bHi);
    ProductSplit(aLo, aHi, bLo, bHi);
    assert a == aHi * TWO32 + aLo && b == bHi * TWO32 + bLo;
  }

  /** The signed form: the unsigned high word less each operand the other's sign asks for. */
  function Smulh(a: u64, b: u64): u64 {
    var h0 := Umulh(a, b);
    var h1 := if SignBit(a, false) then Wrap(h0 - b) else h0;
    if SignBit(b, false) then Wrap(h1 - a) else h1
  }

  /** The signed high multiply is the high word of the signed product, rounding toward minus infinity. */
  lemma SmulhIsExact(a: u64, b: u64)
    ensures Smulh(a, b) == Wrap(FloorDiv(SignedWord(a, false) * SignedWord(b, false), TWO64))
  {
    hide Umulh;
    UmulhIsExact(a, b);
    var sa, sb := Unit(SignBit(a, false)), Unit(SignBit(b, false));
    SignedProduct(a, b, sa, sb);
    var h := a * b / TWO64;
    var shift := TWO64 * (sa * sb) - sa * b - sb * a;
    assert SignedWord(a, false) * SignedWord(b, false) == a * b + shift * TWO64;
    FloorShift(a * b, shift);
    WrapSteps(h, a, b, sa, sb);
  }

  /** Division rounding down, for a positive divisor. */
  function FloorDiv(x: int, m: int): int
    requires m > 0
  {
    x / m
  }

  lemma SignedProduct(a: int, b: int, sa: int, sb: int)
    ensures (a - sa * TWO64) * (b - sb * TWO64) == a * b + (TWO64 * (sa * sb) - sa * b - sb * a) * TWO64
  {
    assert (a - sa * TWO64) * (b - sb * TWO64) == a * b - a * (sb * TWO64) - sa * TWO64 * b + sa * TWO64 * (sb * TWO64);
    assert a * (sb * TWO64) == sb * a * TWO64 && sa * TWO64 * b == sa * b * TWO64;
    assert sa * TWO64 * (sb * TWO64) == TWO64 * (sa * sb) * TWO64;
  }

  lemma FloorShift(x: int, k: int)
    ensures FloorDiv(x + k * TWO64, TWO64) == x / TWO64 + k
  {
    ModUnique(x + k * TWO64, TWO64, x / TWO64 + k, x % TWO64);
  }

  lemma WrapMinus(x: int, y: int)
    ensures Wrap(Wrap(x) - y) == Wrap(x - y) && Wrap(x + TWO64) == Wrap(x)
  {
    ModUnique(x - y, TWO64, x / TWO64 + (Wrap(x) - y) / TWO64, Wrap(Wrap(x) - y));
    ModUnique(x + TWO64, TWO64, x / TWO64 + 1, Wrap(x));
  }

  lemma WrapSteps(h: u64, a: u64, b: u64, sa: nat, sb: nat)
    requires sa <= 1 && sb <= 1
    ensures
      var h1 := if sa == 1 then Wrap(h - b) else h;
      (if sb == 1 then Wrap(h1 - a) else h1) == Wrap(h + (TWO64 * (sa * sb) - sa * b - sb * a))
  {
    hide Wrap;
    WrapMinus(h - b, a);
    WrapMinus(h - b - a, 0);
    assert Wrap(h) == h by { WrapSmall(h); }
  }

  lemma WrapSmall(h: u64)
    ensures Wrap(h) == h
  {
  }
}
