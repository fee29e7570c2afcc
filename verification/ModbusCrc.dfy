/** CRC16 of the RTU framing (MODBUS over Serial Line V1.02, section 6.2.2), and which transmission errors it separates. */
module ModbusCrc {
  import opened Bits
  import opened Common

  type Byte = b: nat | b < 256
  type Word = w: nat | w < 65536

  const POLYNOMIAL: Word := 0xA001

  lemma WordXor(a: Word, b: Word)
    ensures Xor(a, b) < 65536
  {
    Pow2Sum(8, 8);
    XorBound(a, b, 16);
  }

  /** One shift: the bit that falls out decides whether the polynomial is added. */
  function Shift(crc: Word): Word {
    if crc % 2 != 0 then
      WordXor(crc / 2, POLYNOMIAL);
      Xor(crc / 2, POLYNOMIAL)
    else crc / 2
  }

  function Shifts(crc: Word, n: nat): Word {
    if n == 0 then crc else Shift(Shifts(crc, n - 1))
  }

  function Absorb(crc: Word, b: Byte): Word {
    WordXor(crc, b);
    Shifts(Xor(crc, b), 8)
  }

  /** The register after a message, from any starting value. */
  function CrcFrom(crc: Word, msg: seq<Byte>): Word {
    if msg == [] then crc else Absorb(CrcFrom(crc, msg[..|msg| - 1]), msg[|msg| - 1])
  }

  function Crc(msg: seq<Byte>): Word {
    CrcFrom(0xFFFF, msg)
  }

  /** The checksum of the first DataLen bytes of the buffer. */
  method CRC16(pDataBuf: array<Byte>, DataLen: nat) returns (crc: Word)
    requires DataLen <= pDataBuf.Length
    ensures crc == Crc(pDataBuf[..DataLen])
  {
    crc := 0xFFFF;
    for i := 0 to DataLen
      invariant crc == Crc(pDataBuf[..i])
    {
      assert pDataBuf[..i + 1][..i] == pDataBuf[..i];
      WordXor(crc, pDataBuf[i]);
      crc := Xor(crc, pDataBuf[i]);
      ghost var mixed := crc;
      for j := 0 to 8
        invariant crc == Shifts(mixed, j)
      {
        if crc % 2 != 0 {
          WordXor(crc / 2, POLYNOMIAL);
          crc := Xor(crc / 2, POLYNOMIAL);
        } else {
          crc := crc / 2;
        }
      }
    }
  }

  // The register is linear

  lemma ShiftLinear(x: Word, y: Word)
    requires Xor(x, y) < 65536
    ensures Shift(Xor(x, y)) == Xor(Shift(x), Shift(y))
  {
    var h, k := x / 2, y / 2;
    XorParts(x, y);
    ParityCases(x, y);
    if x % 2 != 0 && y % 2 != 0 {
      XorCancels(h, k, POLYNOMIAL);
    } else if x % 2 != 0 {
      XorSwap(h, k, POLYNOMIAL);
    } else if y % 2 != 0 {
      XorAssociates(h, k, POLYNOMIAL);
    }
  }

  lemma ParityCases(x: nat, y: nat)
    ensures (x + y) % 2 == 0 <==> x % 2 == y % 2
  {}

  lemma XorSwap(a: nat, b: nat, c: nat)
    ensures Xor(Xor(a, b), c) == Xor(Xor(a, c), b)
  {
    XorAssociates(a, b, c);
    XorCommutes(b, c);
    XorAssociates(a, c, b);
  }

  lemma {:induction false} ShiftsLinear(x: Word, y: Word, n: nat)
    requires Xor(x, y) < 65536
    ensures Shifts(Xor(x, y), n) == Xor(Shifts(x, n), Shifts(y, n))
  {
    if n == 0 {
    } else {
      ShiftsLinear(x, y, n - 1);
      WordXor(Shifts(x, n - 1), Shifts(y, n - 1));
      ShiftLinear(Shifts(x, n - 1), Shifts(y, n - 1));
    }
  }

  lemma ShiftZero(x: Word)
    ensures Shift(x) == 0 <==> x == 0
  {
    XorSame(x / 2, POLYNOMIAL);
  }

  lemma {:induction false} ShiftsZero(x: Word, n: nat)
    ensures Shifts(x, n) == 0 <==> x == 0
  {
    if n == 0 {
    } else {
      ShiftsZero(x, n - 1);
      ShiftZero(Shifts(x, n - 1));
    }
  }

  lemma {:induction false} ShiftsSum(x: Word, m: nat, n: nat)
    ensures Shifts(Shifts(x, m), n) == Shifts(x, m + n)
  {
    if n == 0 {
    } else {
      ShiftsSum(x, m, n - 1);
    }
  }

  lemma HalfScaled(y: nat, n: nat)
    requires n > 0
    ensures y * Pow2(n) == 2 * (y * Pow2(n - 1))
  {
    var m := Pow2(n - 1);
    assert y * (2 * m) == 2 * (y * m);
  }

  lemma HalfShifted(x: Word, z: Word, n: nat)
    requires x == 2 * z && n > 0
    ensures Shifts(x, n) == Shifts(z, n - 1)
  {
    assert Shifts(x, 1) == Shift(x) == z;
    ShiftsSum(x, 1, n - 1);
  }

  /** Zero bits are shifted out unchanged. */
  lemma {:induction false} ShiftsOut(y: nat, n: nat)
    requires y * Pow2(n) < 65536
    ensures Shifts(y * Pow2(n), n) == y
  {
    if n == 0 {
    } else {
      HalfScaled(y, n);
      HalfShifted(y * Pow2(n), y * Pow2(n - 1), n);
      ShiftsOut(y, n - 1);
    }
  }

  // Differences of messages

  /** The bits in which two messages of equal length differ. */
  function Difference(a: seq<Byte>, b: seq<Byte>): (e: seq<Byte>)
    requires |a| == |b|
    ensures |e| == |a|
  {
    if a == [] then []
    else
      var n := |a| - 1;
      ByteXor(a[n], b[n]);
      Difference(a[..n], b[..n]) + [Xor(a[n], b[n])]
  }

  lemma ByteXor(a: Byte, b: Byte)
    ensures Xor(a, b) < 256
  {
    XorBound(a, b, 8);
  }

  lemma AbsorbLinear(x: Word, y: Word, a: Byte, b: Byte)
    requires Xor(x, y) < 65536 && Xor(a, b) < 256
    ensures Absorb(Xor(x, y), Xor(a, b)) == Xor(Absorb(x, a), Absorb(y, b))
  {
    WordXor(x, a);
    WordXor(y, b);
    WordXor(Xor(x, a), Xor(y, b));
    XorRegroup(x, a, y, b);
    ShiftsLinear(Xor(x, a), Xor(y, b), 8);
  }

  /** The difference of two registers depends on the difference of the messages only. */
  lemma {:induction false} CrcLinear(x: Word, y: Word, a: seq<Byte>, b: seq<Byte>)
    requires |a| == |b| && Xor(x, y) < 65536
    ensures CrcFrom(Xor(x, y), Difference(a, b)) == Xor(CrcFrom(x, a), CrcFrom(y, b))
  {
    if a == [] {
    } else {
      var n := |a| - 1;
      CrcLinear(x, y, a[..n], b[..n]);
      ByteXor(a[n], b[n]);
      var x', y' := CrcFrom(x, a[..n]), CrcFrom(y, b[..n]);
      WordXor(x', y');
      AbsorbLinear(x', y', a[n], b[n]);
      assert Difference(a, b)[..n] == Difference(a[..n], b[..n]);
    }
  }

  /** Two messages of equal length have different checksums exactly when their difference has a non-zero syndrome. */
  lemma SeparatedIffSyndrome(a: seq<Byte>, b: seq<Byte>)
    requires |a| == |b|
    ensures Crc(a) != Crc(b) <==> CrcFrom(0, Difference(a, b)) != 0
  {
    XorSame(0xFFFF, 0xFFFF);
    CrcLinear(0xFFFF, 0xFFFF, a, b);
    XorSame(Crc(a), Crc(b));
  }

  lemma {:induction false} CrcAppend(crc: Word, a: seq<Byte>, b: seq<Byte>)
    ensures CrcFrom(crc, a + b) == CrcFrom(CrcFrom(crc, a), b)
  {
    if b == [] {
      assert a + b == a;
    } else {
      assert (a + b)[..|a + b| - 1] == a + b[..|b| - 1];
      CrcAppend(crc, a, b[..|b| - 1]);
    }
  }

  function Zeros(n: nat): (z: seq<Byte>)
    ensures |z| == n
  {
    if n == 0 then [] else Zeros(n - 1) + [0]
  }

  lemma {:induction false} ZerosKeep(x: Word, n: nat)
    ensures CrcFrom(x, Zeros(n)) == 0 <==> x == 0
  {
    if n == 0 {
    } else {
      ZerosKeep(x, n - 1);
      XorZero(CrcFrom(x, Zeros(n - 1)));
      ShiftsZero(CrcFrom(x, Zeros(n - 1)), 8);
      assert Zeros(n)[..n - 1] == Zeros(n - 1);
    }
  }

  /** Undamaged bytes before and after an error do not hide it. */
  lemma WindowDecides(k: nat, window: seq<Byte>, l: nat)
    ensures CrcFrom(0, Zeros(k) + window + Zeros(l)) == 0 <==> CrcFrom(0, window) == 0
  {
    ZerosKeep(0, k);
    CrcAppend(0, Zeros(k), window);
    CrcAppend(0, Zeros(k) + window, Zeros(l));
    ZerosKeep(CrcFrom(0, window), l);
  }

  // Error bursts

  /** Sixteen consecutive bits on the wire (low bit first), starting s bits into a byte. */
  function Burst(p: Word, s: nat): (w: seq<Byte>)
    requires s <= 8
    ensures |w| == 3
  {
    var u := p * Pow2(s);
    BurstBound(p, s);
    [u % 256, u / 256 % 256, u / 65536]
  }

  lemma BurstBound(p: Word, s: nat)
    requires s <= 8
    ensures p * Pow2(s) < 65536 * 256
  {
    Pow2Monotone(s, 8);
    assert p * Pow2(s) <= p * 256;
  }

  lemma {:induction false} Pow2Monotone(m: nat, n: nat)
    requires m <= n
    ensures Pow2(m) <= Pow2(n)
  {
    if m < n { Pow2Monotone(m, n - 1); }
  }

  /** The low n bits of a word are shifted through the register, the rest is added in afterwards. */
  lemma ShiftsSplit(p: Word, n: nat, low: nat, high: nat)
    requires p == low + high * Pow2(n) && low < Pow2(n)
    ensures low < 65536 && Shifts(p, n) == Xor(Shifts(low, n), high)
  {
    XorDisjoint(low, high, n);
    ShiftsLinear(low, high * Pow2(n), n);
    ShiftsOut(high, n);
  }

  lemma CrcOfTwo(lo: Byte, hi: Byte)
    ensures CrcFrom(0, [lo, hi]) == Absorb(Shifts(lo, 8), hi)
  {
    XorZero(lo);
    assert [lo, hi][..1] == [lo] && [lo][..0] == [];
    assert CrcFrom(0, [lo]) == Absorb(0, lo);
  }

  /** The first two bytes of a window act as one little-endian word. */
  lemma TwoBytes(lo: Byte, hi: Byte)
    ensures CrcFrom(0, [lo, hi]) == Shifts(lo + 256 * hi, 16)
  {
    CrcOfTwo(lo, hi);
    ShiftsSplit(lo + 256 * hi, 8, lo, hi);
    ShiftsSum(lo + 256 * hi, 8, 8);
  }

  lemma WindowRegister(p: Word, s: nat, low: nat, high: nat, b0: Byte, b1: Byte, b2: Byte)
    requires s <= 8 && p == low + high * Pow2(16 - s) && low < Pow2(16 - s)
    requires b0 + 256 * b1 == low * Pow2(s) < 65536 && b2 == high
    ensures CrcFrom(0, [b0, b1, b2]) == Shifts(p, 24 - s)
  {
    assert [b0, b1, b2][..2] == [b0, b1];
    TwoBytes(b0, b1);
    ShiftsOut(low, s);
    ShiftsSum(low * Pow2(s), s, 16 - s);
    ShiftsSplit(p, 16 - s, low, high);
    ShiftsSum(p, 16 - s, 8);
  }

  /** The register after a burst is the burst itself, shifted on: the position inside the bytes does not matter. */
  lemma BurstRegister(p: Word, s: nat)
    requires s <= 8
    ensures CrcFrom(0, Burst(p, s)) == Shifts(p, 24 - s)
  {
    var w := Burst(p, s);
    var low, high := BurstWords(p, s, w[0], w[1], w[2]);
    WindowRegister(p, s, low, high, w[0], w[1], w[2]);
    assert w == [w[0], w[1], w[2]];
  }

  lemma BurstWords(p: Word, s: nat, b0: nat, b1: nat, b2: nat) returns (low: nat, high: nat)
    requires s <= 8
    requires b0 == Burst(p, s)[0] && b1 == Burst(p, s)[1] && b2 == Burst(p, s)[2]
    ensures p == low + high * Pow2(16 - s) && low < Pow2(16 - s)
    ensures b0 + 256 * b1 == low * Pow2(s) < 65536 && b2 == high
  {
    WordSize(s);
    low, high := SplitScaled(p, Pow2(16 - s), Pow2(s));
    Recompose(p * Pow2(s), low * Pow2(s), high);
  }

  lemma WordSize(s: nat)
    requires s <= 16
    ensures Pow2(16 - s) * Pow2(s) == 65536
  {
    Pow2Sum(16 - s, s);
    Pow2Sum(8, 8);
  }

  lemma SplitScaled(p: nat, m: nat, q: nat) returns (low: nat, high: nat)
    requires m > 0 && q > 0 && m * q == 65536
    ensures p == low + high * m && low < m
    ensures p * q == low * q + high * 65536 && low * q < 65536
  {
    low, high := p % m, p / m;
    assert p == m * high + low;
    ScaleSum(low, high, m, q);
    assert low * q <= (m - 1) * q;
  }

  lemma ScaleSum(low: nat, high: nat, m: nat, q: nat)
    ensures (low + high * m) * q == low * q + high * (m * q)
  {
    assert (high * m) * q == high * (m * q);
  }

  lemma Recompose(u: nat, lo: nat, high: nat)
    requires u == lo + high * 65536 && lo < 65536
    ensures u % 256 + 256 * (u / 256 % 256) == lo && u / 65536 == high
  {
    DivMod(u, 65536, high, lo);
    DivMod(u, 256, lo / 256 + high * 256, lo % 256);
    DivMod(u / 256, 256, high, lo / 256);
  }

  /** Any error burst of at most 16 bits changes the checksum, wherever it lies in a message of three bytes or more. */
  lemma BurstsSeparated(a: seq<Byte>, b: seq<Byte>, k: nat, p: Word, s: nat, l: nat)
    requires |a| == |b| && s <= 8
    requires Difference(a, b) == Zeros(k) + Burst(p, s) + Zeros(l)
    ensures Crc(a) != Crc(b) <==> p != 0
  {
    SeparatedIffSyndrome(a, b);
    WindowDecides(k, Burst(p, s), l);
    BurstRegister(p, s);
    ShiftsZero(p, 24 - s);
  }

  lemma PairSyndrome(lo: Byte, hi: Byte)
    ensures CrcFrom(0, [lo, hi]) == 0 <==> lo == 0 && hi == 0
  {
    TwoBytes(lo, hi);
    ShiftsZero(lo + 256 * hi, 16);
  }

  lemma PairDifference(x: Byte, y: Byte, x': Byte, y': Byte)
    ensures var d := Difference([x, y], [x', y']);
            |d| == 2 && (d == [0, 0] <==> x == x' && y == y')
  {
    ByteXor(x, x');
    ByteXor(y, y');
    assert [x, y][..1] == [x] && [x', y'][..1] == [x'] && [x][..0] == [];
    assert Difference([x, y], [x', y']) == [Xor(x, x'), Xor(y, y')];
    XorSame(x, x');
    XorSame(y, y');
  }

  /** In particular, messages that differ only within two adjacent bytes. */
  lemma AdjacentBytesSeparated(pre: seq<Byte>, x: Byte, y: Byte, x': Byte, y': Byte, post: seq<Byte>)
    ensures Crc(pre + [x, y] + post) == Crc(pre + [x', y'] + post) <==> x == x' && y == y'
  {
    var d := Difference([x, y], [x', y']);
    PairDifference(x, y, x', y');
    SeparatedIffSyndrome(pre + [x, y] + post, pre + [x', y'] + post);
    DifferenceAround(pre, [x, y], [x', y'], post);
    WindowDecides(|pre|, d, |post|);
    PairSyndrome(d[0], d[1]);
    assert d == [d[0], d[1]];
  }

  /** Shorter messages have the same checksum only if they are the same. */
  lemma ShortSeparated(a: seq<Byte>, b: seq<Byte>)
    requires |a| == |b| <= 2
    ensures Crc(a) == Crc(b) <==> a == b
  {
    if |a| == 2 {
      AdjacentBytesSeparated([], a[0], a[1], b[0], b[1], []);
      assert [] + [a[0], a[1]] + [] == a && [] + [b[0], b[1]] + [] == b;
    } else if |a| == 1 {
      var x := Xor(a[0], b[0]);
      ByteXor(a[0], b[0]);
      assert a[..0] == [] && b[..0] == [] && Difference(a, b) == [x] && [x][..0] == [];
      XorZero(x);
      SeparatedIffSyndrome(a, b);
      ShiftsZero(x, 8);
      XorSame(a[0], b[0]);
    }
  }

  lemma {:induction false} DifferenceSelf(a: seq<Byte>)
    ensures Difference(a, a) == Zeros(|a|)
  {
    if a == [] {
    } else {
      DifferenceSelf(a[..|a| - 1]);
      XorSame(a[|a| - 1], a[|a| - 1]);
    }
  }

  lemma {:induction false} DifferenceAppend(a: seq<Byte>, b: seq<Byte>, c: seq<Byte>, d: seq<Byte>)
    requires |a| == |b| && |c| == |d|
    ensures Difference(a + c, b + d) == Difference(a, b) + Difference(c, d)
  {
    if c == [] {
      assert a + c == a && b + d == b;
    } else {
      var n := |c| - 1;
      assert (a + c)[..|a + c| - 1] == a + c[..n] && (b + d)[..|b + d| - 1] == b + d[..n];
      DifferenceAppend(a, b, c[..n], d[..n]);
    }
  }

  lemma DifferenceAround(pre: seq<Byte>, c: seq<Byte>, d: seq<Byte>, post: seq<Byte>)
    requires |c| == |d|
    ensures Difference(pre + c + post, pre + d + post) == Zeros(|pre|) + Difference(c, d) + Zeros(|post|)
  {
    DifferenceAppend(pre + c, pre + d, post, post);
    DifferenceAppend(pre, pre, c, d);
    DifferenceSelf(pre);
    DifferenceSelf(post);
  }

  // Odd numbers of wrong bits

  /** The number of bits in which two messages differ. */
  function WrongBits(a: seq<Byte>, b: seq<Byte>): nat
    requires |a| == |b|
  {
    TotalOnes(Difference(a, b))
  }

  function TotalOnes(msg: seq<Byte>): nat {
    if msg == [] then 0 else TotalOnes(msg[..|msg| - 1]) + Ones(msg[|msg| - 1])
  }

  /** The polynomial is divisible by x + 1: a shift keeps the parity of the register. */
  lemma ShiftParity(x: Word)
    ensures OddOnes(Shift(x)) == OddOnes(x)
  {
    OddOnesStep(x);
    OddOnesXor(x / 2, POLYNOMIAL);
    PolynomialParity();
  }

  lemma PolynomialParity()
    ensures OddOnes(POLYNOMIAL)
  {
    assert Ones(0x2) == 1 && Ones(0x5) == 2;
    assert Ones(0x14) == Ones(0xA) == Ones(0x5);
    assert Ones(0x50) == Ones(0x28) == Ones(0x14);
    assert Ones(0x140) == Ones(0xA0) == Ones(0x50);
    assert Ones(0x500) == Ones(0x280) == Ones(0x140);
    assert Ones(0x1400) == Ones(0xA00) == Ones(0x500);
    assert Ones(0x5000) == Ones(0x2800) == Ones(0x1400);
    assert Ones(0xA001) == 1 + Ones(0x5000);
  }

  lemma {:induction false} ShiftsParity(x: Word, n: nat)
    ensures OddOnes(Shifts(x, n)) == OddOnes(x)
  {
    if n == 0 {
    } else {
      ShiftsParity(x, n - 1);
      ShiftParity(Shifts(x, n - 1));
    }
  }

  lemma AbsorbParity(x: Word, b: Byte)
    ensures OddOnes(Absorb(x, b)) == (OddOnes(x) != OddOnes(b))
  {
    WordXor(x, b);
    OddOnesXor(x, b);
    ShiftsParity(Xor(x, b), 8);
  }

  predicate OddTotal(msg: seq<Byte>) {
    TotalOnes(msg) % 2 == 1
  }

  lemma OddTotalStep(msg: seq<Byte>)
    requires msg != []
    ensures OddTotal(msg) == (OddTotal(msg[..|msg| - 1]) != OddOnes(msg[|msg| - 1]))
  {}

  lemma {:induction false} CrcParity(x: Word, msg: seq<Byte>)
    ensures OddOnes(CrcFrom(x, msg)) == (OddOnes(x) != OddTotal(msg))
  {
    if msg == [] {
    } else {
      var n := |msg| - 1;
      CrcParity(x, msg[..n]);
      AbsorbParity(CrcFrom(x, msg[..n]), msg[n]);
      OddTotalStep(msg);
    }
  }

  /** An odd number of wrong bits changes the checksum, however they are spread over the message. */
  lemma OddErrorsSeparated(a: seq<Byte>, b: seq<Byte>)
    requires |a| == |b| && WrongBits(a, b) % 2 == 1
    ensures Crc(a) != Crc(b)
  {
    SeparatedIffSyndrome(a, b);
    CrcParity(0, Difference(a, b));
    assert !OddOnes(0);
  }

  // Frames

  /** Appended low byte first, the checksum is the only pair of bytes that brings the register to zero. */
  lemma ResidueIffChecksum(msg: seq<Byte>, lo: Byte, hi: Byte)
    ensures Crc(msg + [lo, hi]) == 0 <==> lo == Crc(msg) % 256 && hi == Crc(msg) / 256
  {
    var c := Crc(msg);
    var m := msg + [c % 256, c / 256];
    var n := msg + [lo, hi];
    assert msg + [lo, hi] + [] == n && msg + [c % 256, c / 256] + [] == m;
    ResidueZero(msg);
    AdjacentBytesSeparated(msg, lo, hi, c % 256, c / 256, []);
  }

  lemma DropLow(lo: Byte, hi: Byte)
    ensures Xor(lo + 256 * hi, lo) == hi * 256
  {
    XorDisjoint(lo, hi, 8);
    XorCommutes(lo, hi * 256);
    XorAssociates(hi * 256, lo, lo);
    XorSame(lo, lo);
    XorZero(hi * 256);
  }

  lemma ResidueZero(msg: seq<Byte>)
    ensures var c := Crc(msg); Crc(msg + [c % 256, c / 256]) == 0
  {
    var c := Crc(msg);
    var lo, hi := c % 256, c / 256;
    CrcAppend(0xFFFF, msg, [lo, hi]);
    assert [lo, hi][..1] == [lo] && [lo][..0] == [];
    DropLow(lo, hi);
    ShiftsOut(hi, 8);
    assert CrcFrom(c, [lo]) == hi;
    XorSame(hi, hi);
    ShiftsZero(0, 8);
  }
}
