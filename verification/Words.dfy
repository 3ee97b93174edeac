/** Machine words as bounded integers, and little-endian byte strings. */
module Words {
  const TWO64: nat := 0x1_0000_0000_0000_0000
  const TWO32: nat := 0x1_0000_0000

  newtype u8 = x: int | 0 <= x < 0x100
  type u32 = x: int | 0 <= x < 0x1_0000_0000
  type u64 = x: int | 0 <= x < 0x1_0000_0000_0000_0000

  /** The outcomes of include/oemu/status.h that the modelled entry points use. */
  datatype Status = OK | INVALID_ARG | NO_MEMORY | OVERFLOW | RANGE | UNSUPPORTED
                  | FAULT | TIMEOUT | BLOCKED | STATE | FORMAT | NOT_FOUND | FULL

  datatype Option<+T> = None | Some(value: T)

  /** 64-bit addition, wrapping as the C type does. */
  function Wrap(x: int): u64 {
    x % TWO64
  }

  /** Is the bit of value `place` set in `x`? */
  predicate Bit(x: nat, place: nat)
    requires place > 0
  {
    x / place % 2 == 1
  }

  /** Address `off` bytes past `a`. */
  function At(a: u64, off: nat): u64 {
    Wrap(a + off)
  }

  /** Two's complement value of a word of that modulus. */
  function Signed(v: int, modulus: int): int {
    if 2 * v >= modulus then v - modulus else v
  }

  function Pow2(n: nat): (p: nat)
    ensures p > 0
  {
    if n == 0 then 1 else 2 * Pow2(n - 1)
  }

  /** Value of the little-endian byte string `bs`. */
  function LittleEndian(bs: seq<u8>): nat {
    if bs == [] then 0 else bs[0] as int + 256 * LittleEndian(bs[1..])
  }

  /** The low `n` bytes of `v`, least significant first. */
  function ToBytes(v: nat, n: nat): (bs: seq<u8>)
    ensures |bs| == n
  {
    if n == 0 then [] else [(v % 256) as u8] + ToBytes(v / 256, n - 1)
  }

  function Pow256(n: nat): (p: nat)
    ensures p > 0
  {
    if n == 0 then 1 else 256 * Pow256(n - 1)
  }

  lemma {:induction false} LittleEndianBound(bs: seq<u8>)
    ensures LittleEndian(bs) < Pow256(|bs|)
  {
    if bs != [] {
      LittleEndianBound(bs[1..]);
    }
  }

  /** Appending the most significant byte. */
  lemma {:induction false} LittleEndianSnoc(bs: seq<u8>, b: u8)
    ensures LittleEndian(bs + [b]) == LittleEndian(bs) + Pow256(|bs|) * b as int
  {
    if bs == [] {
      assert (bs + [b])[1..] == [];
    } else {
      LittleEndianSnoc(bs[1..], b);
      assert (bs + [b])[1..] == bs[1..] + [b];
      assert Pow256(|bs|) * b as int == 256 * (Pow256(|bs| - 1) * b as int);
    }
  }

  /** Splitting a value into bytes and joining them again keeps its low bytes. */
  lemma {:induction false} LittleEndianRoundTrip(v: nat, n: nat)
    ensures LittleEndian(ToBytes(v, n)) == v % Pow256(n)
  {
    if n > 0 {
      LittleEndianRoundTrip(v / 256, n - 1);
      assert ToBytes(v, n)[1..] == ToBytes(v / 256, n - 1);
      ModSplit(v, Pow256(n - 1));
    }
  }

  lemma ModSplit(v: nat, m: nat)
    requires m > 0
    ensures v % (256 * m) == v % 256 + 256 * ((v / 256) % m)
  {
    var q, r := (v / 256) / m, (v / 256) % m;
    assert v / 256 == q * m + r;
    assert v == q * (256 * m) + (256 * r + v % 256) by {
      assert v == 256 * (q * m + r) + v % 256;
      assert 256 * (q * m) == q * (256 * m);
    }
    assert r <= m - 1;
    ModUnique(v, 256 * m, q, 256 * r + v % 256);
  }

  lemma MulAway(d: int, m: int)
    requires m > 0
    ensures d >= 1 ==> d * m >= m
    ensures d <= -1 ==> d * m <= -m
  {
    if d >= 1 {
      assert (d - 1) * m >= 0;
    } else if d <= -1 {
      assert (-d - 1) * m >= 0;
    }
  }

  lemma ModUnique(v: int, m: int, q: int, r: int)
    requires 0 <= r < m && v == q * m + r
    ensures v % m == r && v / m == q
  {
    var q', r' := v / m, v % m;
    assert v == q' * m + r' by {
      assert v == m * q' + r';
    }
    assert (q - q') * m == r' - r by {
      assert (q - q') * m == q * m - q' * m;
    }
    MulAway(q - q', m);
  }

  /** Joining bytes and splitting the value again gives back the same bytes. */
  lemma {:induction false} BytesRoundTrip(bs: seq<u8>)
    ensures ToBytes(LittleEndian(bs), |bs|) == bs
  {
    if bs != [] {
      var v := LittleEndian(bs);
      assert v % 256 == bs[0] as int && v / 256 == LittleEndian(bs[1..]);
      BytesRoundTrip(bs[1..]);
    }
  }

  /** The transfer sizes a general access moves. */
  predicate TransferSize(n: int) {
    n == 1 || n == 2 || n == 4 || n == 8
  }

  lemma Pow256Values()
    ensures Pow256(1) == 0x100 && Pow256(2) == 0x1_0000 && Pow256(4) == 0x1_0000_0000
    ensures Pow256(8) == TWO64
  {
    assert Pow256(3) == 0x100_0000;
    assert Pow256(6) == 0x1_0000_0000_0000;
    assert Pow256(7) == 0x100_0000_0000_0000;
  }

  lemma TransferFits(n: int)
    requires TransferSize(n)
    ensures 0x100 <= Pow256(n) <= TWO64
  {
    Pow256Values();
  }
}
