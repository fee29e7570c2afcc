/** The checksum as the standard defines it: a remainder of polynomials with two constants. */
module ModbusCrcLaws {
  import opened Bits
  import opened Common
  import opened ModbusCrc

  // Polynomials over one bit, as numbers

  /** A number, if a bit is set. */
  function On(b: nat, m: nat): nat {
    if b == 1 then m else 0
  }

  /** Multiplication without carries. */
  function Product(q: nat, g: nat): nat {
    if q == 0 then 0 else Xor(On(q % 2, g), 2 * Product(q / 2, g))
  }

  /** x^16 + x^15 + x^2 + 1 */
  const G: nat := 0x1_8005

  type Bit = b: nat | b < 2

  /** The bits of a number as they go over the wire, the lowest first. */
  function WireBits(v: nat, n: nat): seq<Bit> {
    if n == 0 then [] else [v % 2] + WireBits(v / 2, n - 1)
  }

  function MessageBits(msg: seq<Byte>): seq<Bit> {
    if msg == [] then [] else MessageBits(msg[..|msg| - 1]) + WireBits(msg[|msg| - 1], 8)
  }

  /** The polynomial whose highest coefficient is sent first. */
  function Value(bits: seq<Bit>): nat {
    if bits == [] then 0 else 2 * Value(bits[..|bits| - 1]) + bits[|bits| - 1]
  }

  /** The n low bits in reverse order. */
  function Reversed(w: nat, n: nat): nat {
    if n == 0 then 0 else On(w % 2, Pow2(n - 1)) + Reversed(w / 2, n - 1)
  }

  // One bit at a time

  function BitStep(w: Word, b: Bit): Word {
    WordXor(w, b);
    Shift(Xor(w, b))
  }

  function BitsFrom(w: Word, bits: seq<Bit>): Word {
    if bits == [] then w else BitStep(BitsFrom(w, bits[..|bits| - 1]), bits[|bits| - 1])
  }

  lemma {:induction false} BitsAppend(w: Word, a: seq<Bit>, b: seq<Bit>)
    ensures BitsFrom(w, a + b) == BitsFrom(BitsFrom(w, a), b)
  {
    if b == [] {
      assert a + b == a;
    } else {
      assert (a + b)[..|a + b| - 1] == a + b[..|b| - 1];
      BitsAppend(w, a, b[..|b| - 1]);
    }
  }

  lemma LowBit(v: nat)
    ensures Xor(v % 2, 2 * (v / 2)) == v
  {
    assert Pow2(1) == 2;
    XorDisjoint(v % 2, v / 2, 1);
  }

  lemma ShiftPlus(x: Word, h: Word)
    requires 2 * h < 65536
    ensures Xor(x, 2 * h) < 65536 && Shift(Xor(x, 2 * h)) == Xor(Shift(x), h)
  {
    WordXor(x, 2 * h);
    ShiftLinear(x, 2 * h);
    ShiftForm(2 * h, h, 0);
  }

  lemma ShiftForm(x: Word, h: Word, t: Bit)
    requires x == 2 * h + t
    ensures Shift(x) == if t == 1 then Xor(h, POLYNOMIAL) else h
  {}

  /** Shifting a word into which a number was added is adding its lowest bit, shifting, and adding the rest. */
  lemma ShiftAdded(w: Word, v: Word)
    ensures Xor(w, v) < 65536 && Shift(Xor(w, v)) == Xor(BitStep(w, v % 2), v / 2)
  {
    LowBit(v);
    XorAssociates(w, v % 2, 2 * (v / 2));
    WordXor(w, v % 2);
    ShiftPlus(Xor(w, v % 2), v / 2);
  }

  lemma {:induction false} ShiftsAreBits(w: Word, v: Word, n: nat)
    requires v < Pow2(n)
    ensures Xor(w, v) < 65536 && Shifts(Xor(w, v), n) == BitsFrom(w, WireBits(v, n))
    decreases n
  {
    WordXor(w, v);
    if n == 0 {
      XorZero(w);
    } else {
      var b: Bit, rest := v % 2, WireBits(v / 2, n - 1);
      ShiftAdded(w, v);
      ShiftsSum(Xor(w, v), 1, n - 1);
      assert Shifts(Xor(w, v), 1) == Shift(Xor(w, v));
      ShiftsAreBits(BitStep(w, b), v / 2, n - 1);
      BitsAppend(w, [b], rest);
      assert [b][..0] == [] && BitsFrom(w, [b]) == BitStep(w, b);
    }
  }

  lemma {:induction false} RegisterByBits(w: Word, msg: seq<Byte>)
    ensures CrcFrom(w, msg) == BitsFrom(w, MessageBits(msg))
  {
    if msg == [] {
    } else {
      var init, b := msg[..|msg| - 1], msg[|msg| - 1];
      RegisterByBits(w, init);
      Pow2Is256();
      ShiftsAreBits(CrcFrom(w, init), b, 8);
      BitsAppend(w, MessageBits(init), WireBits(b, 8));
    }
  }

  lemma Pow2Is256()
    ensures Pow2(8) == 256 && Pow2(15) == 32768 && Pow2(16) == 65536 && Pow2(17) == 131072
  {
    assert Pow2(4) == 16;
    Pow2Sum(4, 4);
    Pow2Sum(8, 8);
  }

  // Reversal

  lemma {:induction false} ReversedBound(w: nat, n: nat)
    ensures Reversed(w, n) < Pow2(n)
  {
    if n == 0 {
    } else {
      ReversedBound(w / 2, n - 1);
    }
  }

  lemma {:induction false} ReversedWiden(u: nat, n: nat)
    requires u < Pow2(n)
    ensures Reversed(u, n + 1) == 2 * Reversed(u, n)
  {
    if n == 0 {
      assert Reversed(0, 1) == 0;
    } else {
      ReversedWiden(u / 2, n - 1);
    }
  }

  lemma SumParity(a: nat, b: nat)
    ensures (a % 2 + b % 2) % 2 == (a + b) % 2
  {}

  lemma TopBitsOf(a: nat, b: nat, c: nat, x: nat, y: nat, n: nat)
    requires c % 2 == (a + b) % 2 && x < Pow2(n) && y < Pow2(n)
    ensures Xor(On(a % 2, Pow2(n)) + x, On(b % 2, Pow2(n)) + y) == On(c % 2, Pow2(n)) + Xor(x, y)
  {
    SumParity(a, b);
    TopBits(a % 2, b % 2, x, y, n);
  }

  lemma {:induction false} ReversedXor(a: nat, b: nat, n: nat)
    ensures Reversed(Xor(a, b), n) == Xor(Reversed(a, n), Reversed(b, n))
  {
    if n == 0 {
    } else {
      ReversedXor(a / 2, b / 2, n - 1);
      XorParts(a, b);
      ReversedBound(a / 2, n - 1);
      ReversedBound(b / 2, n - 1);
      TopBitsOf(a, b, Xor(a, b), Reversed(a / 2, n - 1), Reversed(b / 2, n - 1), n - 1);
    }
  }

  lemma OnTop(s: Bit, x: nat, n: nat)
    requires x < Pow2(n)
    ensures Xor(x, On(s, Pow2(n))) == On(s, Pow2(n)) + x
  {
    XorDisjoint(x, s, n);
  }

  lemma TopBits(s: Bit, t: Bit, x: nat, y: nat, n: nat)
    requires x < Pow2(n) && y < Pow2(n)
    ensures Xor(On(s, Pow2(n)) + x, On(t, Pow2(n)) + y) == On((s + t) % 2, Pow2(n)) + Xor(x, y)
  {
    OnTop(s, x, n);
    OnTop(t, y, n);
    XorBound(x, y, n);
    OnTop((s + t) % 2, Xor(x, y), n);
    TopJoined(s, t, (s + t) % 2, x, y, Pow2(n));
  }

  lemma TopJoined(s: Bit, t: Bit, u: Bit, x: nat, y: nat, m: nat)
    requires u == (s + t) % 2 && Xor(x, On(s, m)) == On(s, m) + x && Xor(y, On(t, m)) == On(t, m) + y
    requires Xor(Xor(x, y), On(u, m)) == On(u, m) + Xor(x, y)
    ensures Xor(On(s, m) + x, On(t, m) + y) == On(u, m) + Xor(x, y)
  {
    ThirdBit(s, t, u, m);
    XorRegroup(x, On(s, m), y, On(t, m));
  }

  lemma BitTimes(s: Bit, t: Bit, m: nat)
    ensures Xor(On(s, m), On(t, m)) == On((s + t) % 2, m)
  {
    XorZero(m);
    XorZero(0);
    XorSame(m, m);
  }

  lemma ThirdBit(s: Bit, t: Bit, u: Bit, m: nat)
    requires u == (s + t) % 2
    ensures Xor(On(s, m), On(t, m)) == On(u, m)
  {
    BitTimes(s, t, m);
  }

  lemma ReversedPolynomial()
    ensures Reversed(POLYNOMIAL, 16) == 0x8005 && Xor(G, 0x8005) == 0x1_0000
  {
    Pow2Is256();
    XorDisjoint(0x8005, 1, 16);
    XorCommutes(0x8005, 0x1_0000);
    XorAssociates(0x1_0000, 0x8005, 0x8005);
    XorSame(0x8005, 0x8005);
    XorZero(0x1_0000);
    ReversedInParts();
  }

  lemma {:induction false} ReversedScaled(w: nat, n: nat, k: nat)
    ensures Reversed(w * Pow2(k), n + k) == Reversed(w, n)
  {
    if k == 0 {
    } else {
      var v := w * Pow2(k - 1);
      assert w * Pow2(k) == 2 * v;
      ReversedScaled(w, n, k - 1);
    }
  }

  lemma ReversedInParts()
    ensures Reversed(POLYNOMIAL, 16) == 0x8005
  {
    Pow2Is256();
    assert Pow2(12) == 4096 by { Pow2Sum(8, 4); }
    ReversedScaled(5, 3, 12);
    assert Reversed(1, 1) == 1 && Reversed(2, 2) == 1 && Reversed(5, 3) == 5;
    assert POLYNOMIAL / 2 == 5 * 4096;
  }

  // The remainder

  ghost predicate IsRemainder(r: nat, v: nat) {
    r < 65536 && exists q :: Xor(Product(q, G), r) == v
  }

  lemma ProductParts(a: nat)
    ensures Product(a, G) == Xor(On(a % 2, G), 2 * Product(a / 2, G))
  {
    if a == 0 { XorZero(0); }
  }

  lemma Doubled(q: nat)
    ensures Product(2 * q, G) == 2 * Product(q, G)
    ensures Product(2 * q + 1, G) == Xor(G, 2 * Product(q, G))
  {
    assert 2 * q / 2 == q && 2 * q % 2 == 0 && (2 * q + 1) / 2 == q && (2 * q + 1) % 2 == 1;
    ProductParts(2 * q);
    ProductParts(2 * q + 1);
    XorZero(2 * Product(q, G));
  }

  lemma EvenHalf(x: nat, h: nat)
    requires x / 2 == h && x % 2 == 0
    ensures x == 2 * h
  {}

  lemma XorDoubled(a: nat, b: nat)
    ensures Xor(2 * a, 2 * b) == 2 * Xor(a, b)
  {
    XorParts(2 * a, 2 * b);
    assert 2 * a / 2 == a && 2 * b / 2 == b && (2 * a + 2 * b) % 2 == 0;
    EvenHalf(Xor(2 * a, 2 * b), Xor(a, b));
  }

  lemma TopReversed(w: Word)
    ensures 2 * Reversed(w, 16) == On(w % 2, 0x1_0000) + 2 * Reversed(w / 2, 15) && Reversed(w / 2, 15) < 32768
  {
    Pow2Is256();
    ReversedBound(w / 2, 15);
  }

  lemma OnWord(s: Bit, x: nat)
    requires x < 0x1_0000
    ensures Xor(x, On(s, 0x1_0000)) == On(s, 0x1_0000) + x
  {
    Pow2Is256();
    OnTop(s, x, 16);
  }

  lemma TopAdded(s: Bit, b: Bit, t: Bit, low: nat)
    requires t == (s + b) % 2 && low < 32768
    ensures Xor(On(s, 0x1_0000) + 2 * low, On(b, 0x1_0000)) == Xor(2 * low, On(t, 0x1_0000))
  {
    OnWord(s, 2 * low);
    XorAssociates(2 * low, On(s, 0x1_0000), On(b, 0x1_0000));
    ThirdBit(s, b, t, 0x1_0000);
  }

  /** Shifting the register's reversal by one place and adding a bit above it. */
  lemma ShiftedReversal(w: Word, b: Bit)
    ensures var t, low := (w % 2 + b) % 2, Reversed(w / 2, 15);
            Xor(2 * Reversed(w, 16), On(b, 0x1_0000)) == Xor(2 * low, On(t, 0x1_0000))
  {
    TopReversed(w);
    TopAdded(w % 2, b, (w % 2 + b) % 2, Reversed(w / 2, 15));
  }

  lemma BitAdded(w: nat, b: Bit)
    ensures Xor(w, b) == 2 * (w / 2) + (w % 2 + b) % 2
  {
    XorParts(w, b);
    XorZero(w / 2);
    SumParity(w, b);
    assert b / 2 == 0;
  }

  lemma StepForm(w: Word, b: Bit)
    ensures BitStep(w, b) == if (w % 2 + b) % 2 == 1 then Xor(w / 2, POLYNOMIAL) else w / 2
  {
    BitAdded(w, b);
    ShiftForm(2 * (w / 2) + (w % 2 + b) % 2, w / 2, (w % 2 + b) % 2);
  }

  lemma SteppedReversal(w: Word, b: Bit)
    ensures var t, low := (w % 2 + b) % 2, Reversed(w / 2, 15);
            Reversed(BitStep(w, b), 16) == if t == 1 then Xor(2 * low, 0x8005) else 2 * low
  {
    StepForm(w, b);
    Pow2Is256();
    ReversedWiden(w / 2, 15);
    ReversedXor(w / 2, POLYNOMIAL, 16);
    ReversedInParts();
  }

  lemma AboveBit(v: nat, b: Bit)
    ensures Xor(v * 131072, On(b, 0x1_0000)) == (2 * v + b) * 0x1_0000
  {
    Pow2Is256();
    XorDisjoint(On(b, 0x1_0000), v, 17);
    XorCommutes(On(b, 0x1_0000), v * 131072);
  }

  lemma ValueAdded(v: nat, b: Bit, p: nat, r: nat)
    requires Xor(p, r) == v * 131072
    ensures Xor(p, Xor(r, On(b, 0x1_0000))) == (2 * v + b) * 0x1_0000
  {
    XorAssociates(p, r, On(b, 0x1_0000));
    AboveBit(v, b);
  }

  lemma ValueStep(v: nat, b: Bit, p: nat, r: nat)
    requires Xor(p, r) == v * 0x1_0000
    ensures Xor(2 * p, Xor(2 * r, On(b, 0x1_0000))) == (2 * v + b) * 0x1_0000
  {
    XorDoubled(p, r);
    ValueAdded(v, b, 2 * p, 2 * r);
  }

  lemma Exchange(g: nat, p: nat, l: nat, e: nat, top: nat)
    requires Xor(g, e) == top
    ensures Xor(Xor(g, p), Xor(l, e)) == Xor(p, Xor(l, top))
  {
    XorCommutes(g, p);
    XorRegroup(p, g, l, e);
    XorAssociates(p, l, top);
  }

  lemma NextQuotient(q: nat, t: Bit, low: nat, r: nat) returns (next: nat)
    requires r == if t == 1 then Xor(2 * low, 0x8005) else 2 * low
    ensures Xor(Product(next, G), r) == Xor(2 * Product(q, G), Xor(2 * low, On(t, 0x1_0000)))
  {
    Doubled(q);
    if t == 0 {
      next := 2 * q;
      XorZero(2 * low);
    } else {
      next := 2 * q + 1;
      ReversedPolynomial();
      Exchange(G, 2 * Product(q, G), 2 * low, 0x8005, 0x1_0000);
    }
  }

  lemma RemainderStep(v: nat, w: Word, b: Bit, q: nat) returns (next: nat)
    requires Xor(Product(q, G), Reversed(w, 16)) == v * 0x1_0000
    ensures Xor(Product(next, G), Reversed(BitStep(w, b), 16)) == (2 * v + b) * 0x1_0000
  {
    ValueStep(v, b, Product(q, G), Reversed(w, 16));
    ShiftedReversal(w, b);
    SteppedReversal(w, b);
    next := NextQuotient(q, (w % 2 + b) % 2, Reversed(w / 2, 15), Reversed(BitStep(w, b), 16));
  }

  lemma {:induction false} BitsRemainder(bits: seq<Bit>) returns (q: nat)
    ensures Xor(Product(q, G), Reversed(BitsFrom(0, bits), 16)) == Value(bits) * 0x1_0000
  {
    if bits == [] {
      q := 0;
      ReversedZero(16);
    } else {
      var init := bits[..|bits| - 1];
      q := BitsRemainder(init);
      q := RemainderStep(Value(init), BitsFrom(0, init), bits[|bits| - 1], q);
    }
  }

  lemma {:induction false} ReversedZero(n: nat)
    ensures Reversed(0, n) == 0
  {
    if n == 0 {
    } else {
      ReversedZero(n - 1);
    }
  }

  // There is just one remainder

  lemma XorJoined(s: nat, t: nat, x: nat, y: nat)
    ensures Xor(Xor(s, 2 * x), Xor(t, 2 * y)) == Xor(Xor(s, t), 2 * Xor(x, y))
  {
    XorRegroup(s, 2 * x, t, 2 * y);
    XorDoubled(x, y);
  }

  lemma ThirdParity(a: nat, b: nat, c: nat)
    requires c % 2 == (a + b) % 2
    ensures c % 2 == (a % 2 + b % 2) % 2
  {}

  lemma PartsJoined(s: Bit, t: Bit, u: Bit, x: nat, y: nat)
    requires u == (s + t) % 2
    ensures Xor(Xor(On(s, G), 2 * x), Xor(On(t, G), 2 * y)) == Xor(On(u, G), 2 * Xor(x, y))
  {
    ThirdBit(s, t, u, G);
    XorJoined(On(s, G), On(t, G), x, y);
  }

  lemma ProductJoin(a: nat, b: nat, c: nat)
    requires c % 2 == (a + b) % 2 && Product(c / 2, G) == Xor(Product(a / 2, G), Product(b / 2, G))
    ensures Product(c, G) == Xor(Product(a, G), Product(b, G))
  {
    ProductParts(a);
    ProductParts(b);
    ProductParts(c);
    ThirdParity(a, b, c);
    PartsJoined(a % 2, b % 2, c % 2, Product(a / 2, G), Product(b / 2, G));
  }

  lemma {:induction false} ProductXor(a: nat, b: nat)
    ensures Product(Xor(a, b), G) == Xor(Product(a, G), Product(b, G))
    decreases a + b
  {
    if a + b == 0 {
      XorZero(0);
    } else {
      ProductXor(a / 2, b / 2);
      XorParts(a, b);
      ProductJoin(a, b, Xor(a, b));
    }
  }

  /** The number without its n low bits. */
  function High(a: nat, n: nat): nat {
    if n == 0 then a else High(a / 2, n - 1)
  }

  lemma {:induction false} HighXor(a: nat, b: nat, n: nat)
    ensures High(Xor(a, b), n) == Xor(High(a, n), High(b, n))
  {
    if n == 0 {
    } else {
      XorParts(a, b);
      HighXor(a / 2, b / 2, n - 1);
    }
  }

  lemma {:induction false} HighLeast(a: nat, h: nat, n: nat)
    ensures High(a, n) >= h <==> a >= h * Pow2(n)
  {
    if n == 0 {
    } else {
      HighLeast(a / 2, h, n - 1);
      HalfLeast(a, h * Pow2(n - 1));
      assert h * Pow2(n) == 2 * (h * Pow2(n - 1));
    }
  }

  lemma HalfLeast(a: nat, m: nat)
    ensures a / 2 >= m <==> a >= 2 * m
  {}

  lemma {:induction false} ProductLarge(q: nat)
    requires q > 0
    ensures Product(q, G) >= 0x1_0000
  {
    Pow2Is256();
    var g, p := On(q % 2, G), 2 * Product(q / 2, G);
    ProductParts(q);
    HighXor(g, p, 16);
    HighLeast(g, 2, 16);
    HighLeast(Xor(g, p), 1, 16);
    if q == 1 {
      XorZero(G);
    } else {
      ProductLarge(q / 2);
      HighLeast(p, 2, 16);
      XorSame(High(g, 16), High(p, 16));
    }
  }

  lemma RemainderUnique(q: nat, r: nat, q': nat, r': nat)
    requires r < 65536 && r' < 65536 && Xor(Product(q, G), r) == Xor(Product(q', G), r')
    ensures r == r'
  {
    var p, p' := Product(q, G), Product(q', G);
    Pow2Is256();
    XorBound(r, r', 16);
    XorRegroup(p, r, p', r');
    XorSame(Xor(p, r), Xor(p', r'));
    XorSame(Xor(p, p'), Xor(r, r'));
    ProductXor(q, q');
    if Xor(q, q') > 0 { ProductLarge(Xor(q, q')); }
    XorSame(r, r');
  }

  /**
   * Started from zero, the register holds the remainder of the message times x^16 by x^16 + x^15 + x^2 + 1, in reverse,
   * and nothing else is one.
   */
  lemma RegisterIsRemainder(msg: seq<Byte>, r: nat)
    ensures IsRemainder(r, Value(MessageBits(msg)) * 0x1_0000) <==> r == Reversed(CrcFrom(0, msg), 16)
  {
    var v, found := Value(MessageBits(msg)) * 0x1_0000, Reversed(CrcFrom(0, msg), 16);
    Pow2Is256();
    ReversedBound(CrcFrom(0, msg), 16);
    RegisterByBits(0, msg);
    var q := BitsRemainder(MessageBits(msg));
    assert IsRemainder(found, v);
    if IsRemainder(r, v) {
      var q' :| Xor(Product(q', G), r) == v;
      RemainderUnique(q, found, q', r);
    }
  }

  // The start value

  /** The message with its first sixteen bits inverted. */
  function Inverted(msg: seq<Byte>): seq<Byte>
    requires |msg| >= 2
  {
    [255 - msg[0], 255 - msg[1]] + msg[2..]
  }

  lemma Completed(x: nat, y: int, b: nat, h: nat)
    requires x == 2 * y + (1 - b % 2) && y == h - b / 2
    ensures x == 2 * h + 1 - b
  {}

  lemma ComplementStep(b: nat, e: nat, h: nat)
    requires e == 2 * h + 1 && Xor(b / 2, h) == h - b / 2
    ensures Xor(b, e) == e - b
  {
    OddXorOf(b, e, h);
    Completed(Xor(b, e), Xor(b / 2, h), b, h);
  }

  lemma {:induction false} Complement(b: nat, n: nat)
    requires b < Pow2(n)
    ensures Xor(b, Pow2(n) - 1) == Pow2(n) - 1 - b
  {
    if n == 0 {
    } else {
      Complement(b / 2, n - 1);
      ComplementStep(b, Pow2(n) - 1, Pow2(n - 1) - 1);
    }
  }

  lemma ByteComplement(b: Byte)
    ensures Xor(b, 255) == 255 - b
  {
    Pow2Is256();
    Complement(b, 8);
  }

  lemma AddedTwice(a: nat, x: nat)
    ensures Xor(Xor(a, x), a) == x
  {
    XorCommutes(a, x);
    XorAssociates(x, a, a);
    XorSame(a, a);
    XorZero(x);
  }

  lemma LowByteGone(a: Byte, b: Byte)
    ensures Xor(a + b * 256, a) == b * 256
  {
    ByteDisjoint(a, b);
    AddedTwice(a, b * 256);
  }

  lemma ByteDisjoint(a: Byte, b: Byte)
    ensures Xor(a, b * 256) == a + b * 256
  {
    Pow2Is256();
    XorDisjoint(a, b, 8);
  }

  /** The register is empty once the two bytes it held went in. */
  lemma SameBytesVanish(w: Word, a: Byte, b: Byte)
    requires w == a + b * 256
    ensures CrcFrom(w, [a, b]) == 0
  {
    LowByteGone(a, b);
    Pow2Is256();
    ShiftsOut(b, 8);
    ShiftsZero(0, 8);
    XorSame(b, b);
    assert [a, b][..1] == [a] && [a][..0] == [];
    assert CrcFrom(w, [a]) == Absorb(w, a) == b;
  }

  lemma FirstTwo(a: Byte, b: Byte)
    ensures CrcFrom(0xFFFF, [a, b]) == CrcFrom(0, [255 - a, 255 - b])
  {
    var x, y := [a, b], [255 - a, 255 - b];
    SameBytesVanish(0xFFFF, 255, 255);
    BothComplements(a, b);
    XorZero(0xFFFF);
    CrcLinear(0xFFFF, 0, x, y);
    XorSame(CrcFrom(0xFFFF, x), CrcFrom(0, y));
  }

  lemma BothComplements(a: Byte, b: Byte)
    ensures Difference([a, b], [255 - a, 255 - b]) == [255, 255]
  {
    ByteDifference(a);
    ByteDifference(b);
    assert [a, b][..1] == [a] && [255 - a, 255 - b][..1] == [255 - a] && [a][..0] == [];
    ByteXor(a, 255 - a);
    ByteXor(b, 255 - b);
  }

  lemma ByteDifference(b: Byte)
    ensures Xor(b, 255 - b) == 255
  {
    ByteComplement(b);
    XorAssociates(b, b, 255);
    XorSame(b, b);
    XorZero(255);
  }

  /** The checksum is what the register gives from zero when the first sixteen bits are inverted. */
  lemma StartInverts(msg: seq<Byte>)
    requires |msg| >= 2
    ensures Crc(msg) == CrcFrom(0, Inverted(msg))
  {
    assert msg == [msg[0], msg[1]] + msg[2..];
    FirstTwo(msg[0], msg[1]);
    CrcAppend(0xFFFF, [msg[0], msg[1]], msg[2..]);
    CrcAppend(0, [255 - msg[0], 255 - msg[1]], msg[2..]);
  }

  // Values

  lemma {:induction false} ScaledXor(a: nat, b: nat, n: nat)
    ensures Xor(a * Pow2(n), b * Pow2(n)) == Xor(a, b) * Pow2(n)
  {
    if n == 0 {
    } else {
      var x, y := a * Pow2(n - 1), b * Pow2(n - 1);
      ScaledXor(a, b, n - 1);
      HalfScaled(a, n);
      HalfScaled(b, n);
      HalfScaled(Xor(a, b), n);
      XorDoubled(x, y);
    }
  }

  lemma UpperXor(a: nat, b: nat, c: nat, n: nat)
    requires b < Pow2(n)
    ensures Xor(b + a * Pow2(n), c * Pow2(n)) == b + Xor(a, c) * Pow2(n)
  {
    XorDisjoint(b, a, n);
    XorAssociates(b, a * Pow2(n), c * Pow2(n));
    ScaledXor(a, c, n);
    XorDisjoint(b, Xor(a, c), n);
  }

  lemma OddDouble(x: nat, h: nat, t: Bit)
    requires x / 2 == h && x % 2 == t
    ensures x == 2 * h + t
  {}

  lemma OddParity(h: nat, c: nat)
    ensures (h + (2 * c + 1)) % 2 == 1 - h % 2 && (2 * c + 1) / 2 == c
  {}

  lemma OddXor(h: nat, c: nat)
    ensures Xor(h, 2 * c + 1) == 2 * Xor(h / 2, c) + (1 - h % 2)
  {
    OddXorOf(h, 2 * c + 1, c);
  }

  lemma OddXorOf(h: nat, d: nat, c: nat)
    requires d == 2 * c + 1
    ensures Xor(h, d) == 2 * Xor(h / 2, c) + (1 - h % 2)
  {
    OddParity(h, c);
    XorParts(h, d);
    OddDouble(Xor(h, d), Xor(h / 2, c), 1 - h % 2);
  }

  function Fives(a: nat): nat {
    if a % 2 == 0 then a + 5 else a + 3
  }

  lemma TopFive(a: nat)
    requires a < 4
    ensures Xor(a, 5) == Fives(a)
  {
    OddXor(a, 2);
    assert Pow2(1) == 2;
    XorDisjoint(a / 2, 1, 1);
  }

  /** A halved register and the polynomial, by arithmetic. */
  function Added(h: nat): nat {
    2 * (h / 2 % 0x1000 + Fives(h / 2 / 0x1000) * 0x1000) + (1 - h % 2)
  }

  lemma PolynomialAdded(h: nat)
    requires h < 0x8000
    ensures Xor(h, POLYNOMIAL) == Added(h)
  {
    var u := h / 2;
    assert Pow2(12) == 0x1000 by { Pow2Is256(); Pow2Sum(8, 4); }
    UpperXor(u / 0x1000, u % 0x1000, 5, 12);
    TopFive(u / 0x1000);
    OddXor(h, 0x5000);
  }

  /** The register after one bit, by arithmetic. */
  function Stepped(w: int, b: int): int {
    if w % 2 == b then w / 2
    else w / 2 + 0x8000 + (if w % 0x8000 >= 0x4000 then -0x2000 else 0x2000) + (if w % 4 >= 2 then -1 else 1)
  }

  lemma AddedIs(w: Word)
    ensures Added(w / 2) == w / 2 + 0x8000 + (if w % 0x8000 >= 0x4000 then -0x2000 else 0x2000) + (if w % 4 >= 2 then -1 else 1)
  {
    var h := w / 2;
    var u := h / 2;
    assert h == 2 * u + h % 2 && u == 0x1000 * (u / 0x1000) + u % 0x1000;
    assert w % 4 >= 2 <==> h % 2 == 1;
    assert w % 0x8000 >= 0x4000 <==> u / 0x1000 % 2 == 1;
  }

  lemma SteppedIs(w: Word, b: Bit)
    ensures BitStep(w, b) == Stepped(w, b)
  {
    StepForm(w, b);
    HalfStepped(w);
    ParityCases(w % 2, b);
  }

  lemma HalfStepped(w: Word)
    ensures Xor(w / 2, POLYNOMIAL) == Stepped(w, 1 - w % 2)
  {
    PolynomialAdded(w / 2);
    AddedIs(w);
  }

  /** Functions with the values of Stepped. */
  ghost predicate Steps(f: (int, int) -> int) {
    forall w, b {:trigger Stepped(w, b)} :: f(w, b) == Stepped(w, b)
  }

  /** Registers one behind the other, each after one bit more of a number. */
  predicate Stepping(f: (int, int) -> int, v: nat, x: seq<int>)
    requires x != []
    decreases |x|
  {
    |x| == 1 || (x[1] == f(x[0], v % 2) && Stepping(f, v / 2, x[1..]))
  }

  lemma {:induction false} SteppingThrough(f: (int, int) -> int, w: Word, v: nat, n: nat) returns (x: seq<int>)
    requires Steps(f)
    ensures |x| == n + 1 && Stepping(f, v, x) && x[0] == w && x[n] == BitsFrom(w, WireBits(v, n))
    decreases n
  {
    if n == 0 {
      x := [w];
    } else {
      var b: Bit := v % 2;
      var rest := SteppingThrough(f, BitStep(w, b), v / 2, n - 1);
      x := [w] + rest;
      assert x[1..] == rest;
      SteppedIs(w, b);
      BitsAppend(w, [b], WireBits(v / 2, n - 1));
      assert [b][..0] == [] && BitsFrom(w, [b]) == BitStep(w, b);
    }
  }

  /** The registers while one byte of a message goes in. */
  lemma ByteSteps(f: (int, int) -> int, m: seq<Byte>, k: nat) returns (x: seq<int>)
    requires k < |m| && Steps(f)
    ensures |x| == 9 && Stepping(f, m[k], x) && x[0] == Crc(m[..k]) && x[8] == Crc(m[..k + 1])
  {
    assert m[..k + 1][..k] == m[..k];
    Pow2Is256();
    ShiftsAreBits(Crc(m[..k]), m[k], 8);
    x := SteppingThrough(f, Crc(m[..k]), m[k], 8);
  }

  lemma FourSteps(f: (int, int) -> int, v: nat, x: seq<int>)
    requires |x| >= 5 && Stepping(f, v, x)
    ensures x[1] == f(x[0], v % 2) && x[2] == f(x[1], v / 2 % 2)
    ensures x[3] == f(x[2], v / 4 % 2) && x[4] == f(x[3], v / 8 % 2)
    ensures Stepping(f, v / 16, x[4..])
  {
    assert x[1..][1..] == x[2..] && x[2..][1..] == x[3..] && x[3..][1..] == x[4..];
    assert v / 2 / 2 == v / 4 && v / 4 / 2 == v / 8 && v / 8 / 2 == v / 16;
    assert Stepping(f, v / 2, x[1..]) && Stepping(f, v / 4, x[2..]) && Stepping(f, v / 8, x[3..]);
  }

  lemma EightSteps(f: (int, int) -> int, v: nat, x: seq<int>)
    requires |x| == 9 && Stepping(f, v, x)
    ensures x[1] == f(x[0], v % 2) && x[2] == f(x[1], v / 2 % 2)
    ensures x[3] == f(x[2], v / 4 % 2) && x[4] == f(x[3], v / 8 % 2)
    ensures x[5] == f(x[4], v / 16 % 2) && x[6] == f(x[5], v / 32 % 2)
    ensures x[7] == f(x[6], v / 64 % 2) && x[8] == f(x[7], v / 128 % 2)
  {
    FourSteps(f, v, x);
    FourSteps(f, v / 16, x[4..]);
    assert v / 16 / 2 == v / 32 && v / 16 / 4 == v / 64 && v / 16 / 8 == v / 128;
  }

  lemma Steps1(f: (int, int) -> int)
    requires Steps(f)
    ensures f(0xFFFF, 1) == 0x7FFF && f(0x7FFF, 0) == 0x9FFE && f(0x9FFE, 0) == 0x4FFF && f(0x4FFF, 0) == 0x87FE
    ensures f(0x87FE, 1) == 0xE3FE && f(0xE3FE, 1) == 0xD1FE && f(0xD1FE, 0) == 0x68FF && f(0x68FF, 0) == 0x947E
  {
    assert Stepped(0xFFFF, 1) == 0x7FFF && Stepped(0x7FFF, 0) == 0x9FFE && Stepped(0x9FFE, 0) == 0x4FFF && Stepped(0x4FFF, 0) == 0x87FE;
    assert Stepped(0x87FE, 1) == 0xE3FE && Stepped(0xE3FE, 1) == 0xD1FE && Stepped(0xD1FE, 0) == 0x68FF && Stepped(0x68FF, 0) == 0x947E;
  }

  lemma Digit1(f: (int, int) -> int, x: seq<int>)
    requires |x| == 9 && x[0] == 0xFFFF && Stepping(f, 0x31, x) && Steps(f)
    ensures x[8] == 0x947E
  {
    EightSteps(f, 0x31, x);
    Steps1(f);
  }

  lemma Steps2(f: (int, int) -> int)
    requires Steps(f)
    ensures f(0x947E, 0) == 0x4A3F && f(0x4A3F, 1) == 0x251F && f(0x251F, 0) == 0xB28E && f(0xB28E, 0) == 0x5947
    ensures f(0x5947, 1) == 0x2CA3 && f(0x2CA3, 1) == 0x1651 && f(0x1651, 0) == 0xAB29 && f(0xAB29, 0) == 0xF595
  {
    assert Stepped(0x947E, 0) == 0x4A3F && Stepped(0x4A3F, 1) == 0x251F && Stepped(0x251F, 0) == 0xB28E && Stepped(0xB28E, 0) == 0x5947;
    assert Stepped(0x5947, 1) == 0x2CA3 && Stepped(0x2CA3, 1) == 0x1651 && Stepped(0x1651, 0) == 0xAB29 && Stepped(0xAB29, 0) == 0xF595;
  }

  lemma Digit2(f: (int, int) -> int, x: seq<int>)
    requires |x| == 9 && x[0] == 0x947E && Stepping(f, 0x32, x) && Steps(f)
    ensures x[8] == 0xF595
  {
    EightSteps(f, 0x32, x);
    Steps2(f);
  }

  lemma Steps3(f: (int, int) -> int)
    requires Steps(f)
    ensures f(0xF595, 1) == 0x7ACA && f(0x7ACA, 1) == 0x9D64 && f(0x9D64, 0) == 0x4EB2 && f(0x4EB2, 0) == 0x2759
    ensures f(0x2759, 1) == 0x13AC && f(0x13AC, 1) == 0xA9D7 && f(0xA9D7, 0) == 0xF4EA && f(0xF4EA, 0) == 0x7A75
  {
    assert Stepped(0xF595, 1) == 0x7ACA && Stepped(0x7ACA, 1) == 0x9D64 && Stepped(0x9D64, 0) == 0x4EB2 && Stepped(0x4EB2, 0) == 0x2759;
    assert Stepped(0x2759, 1) == 0x13AC && Stepped(0x13AC, 1) == 0xA9D7 && Stepped(0xA9D7, 0) == 0xF4EA && Stepped(0xF4EA, 0) == 0x7A75;
  }

  lemma Digit3(f: (int, int) -> int, x: seq<int>)
    requires |x| == 9 && x[0] == 0xF595 && Stepping(f, 0x33, x) && Steps(f)
    ensures x[8] == 0x7A75
  {
    EightSteps(f, 0x33, x);
    Steps3(f);
  }

  lemma Steps4(f: (int, int) -> int)
    requires Steps(f)
    ensures f(0x7A75, 0) == 0x9D3B && f(0x9D3B, 0) == 0xEE9C && f(0xEE9C, 1) == 0xD74F && f(0xD74F, 0) == 0xCBA6
    ensures f(0xCBA6, 1) == 0xC5D2 && f(0xC5D2, 1) == 0xC2E8 && f(0xC2E8, 0) == 0x6174 && f(0x6174, 0) == 0x30BA
  {
    assert Stepped(0x7A75, 0) == 0x9D3B && Stepped(0x9D3B, 0) == 0xEE9C && Stepped(0xEE9C, 1) == 0xD74F && Stepped(0xD74F, 0) == 0xCBA6;
    assert Stepped(0xCBA6, 1) == 0xC5D2 && Stepped(0xC5D2, 1) == 0xC2E8 && Stepped(0xC2E8, 0) == 0x6174 && Stepped(0x6174, 0) == 0x30BA;
  }

  lemma Digit4(f: (int, int) -> int, x: seq<int>)
    requires |x| == 9 && x[0] == 0x7A75 && Stepping(f, 0x34, x) && Steps(f)
    ensures x[8] == 0x30BA
  {
    EightSteps(f, 0x34, x);
    Steps4(f);
  }

  lemma Steps5(f: (int, int) -> int)
    requires Steps(f)
    ensures f(0x30BA, 1) == 0xB85C && f(0xB85C, 0) == 0x5C2E && f(0x5C2E, 1) == 0x8E16 && f(0x8E16, 0) == 0x470B
    ensures f(0x470B, 1) == 0x2385 && f(0x2385, 1) == 0x11C2 && f(0x11C2, 0) == 0x08E1 && f(0x08E1, 0) == 0xA471
  {
    assert Stepped(0x30BA, 1) == 0xB85C && Stepped(0xB85C, 0) == 0x5C2E && Stepped(0x5C2E, 1) == 0x8E16 && Stepped(0x8E16, 0) == 0x470B;
    assert Stepped(0x470B, 1) == 0x2385 && Stepped(0x2385, 1) == 0x11C2 && Stepped(0x11C2, 0) == 0x08E1 && Stepped(0x08E1, 0) == 0xA471;
  }

  lemma Digit5(f: (int, int) -> int, x: seq<int>)
    requires |x| == 9 && x[0] == 0x30BA && Stepping(f, 0x35, x) && Steps(f)
    ensures x[8] == 0xA471
  {
    EightSteps(f, 0x35, x);
    Steps5(f);
  }

  lemma Steps6(f: (int, int) -> int)
    requires Steps(f)
    ensures f(0xA471, 0) == 0xF239 && f(0xF239, 1) == 0x791C && f(0x791C, 1) == 0x9C8F && f(0x9C8F, 0) == 0xEE46
    ensures f(0xEE46, 1) == 0xD722 && f(0xD722, 1) == 0xCB90 && f(0xCB90, 0) == 0x65C8 && f(0x65C8, 0) == 0x32E4
  {
    assert Stepped(0xA471, 0) == 0xF239 && Stepped(0xF239, 1) == 0x791C && Stepped(0x791C, 1) == 0x9C8F && Stepped(0x9C8F, 0) == 0xEE46;
    assert Stepped(0xEE46, 1) == 0xD722 && Stepped(0xD722, 1) == 0xCB90 && Stepped(0xCB90, 0) == 0x65C8 && Stepped(0x65C8, 0) == 0x32E4;
  }

  lemma Digit6(f: (int, int) -> int, x: seq<int>)
    requires |x| == 9 && x[0] == 0xA471 && Stepping(f, 0x36, x) && Steps(f)
    ensures x[8] == 0x32E4
  {
    EightSteps(f, 0x36, x);
    Steps6(f);
  }

  lemma Steps7(f: (int, int) -> int)
    requires Steps(f)
    ensures f(0x32E4, 1) == 0xB973 && f(0xB973, 1) == 0x5CB9 && f(0x5CB9, 1) == 0x2E5C && f(0x2E5C, 0) == 0x172E
    ensures f(0x172E, 1) == 0xAB96 && f(0xAB96, 1) == 0xF5CA && f(0xF5CA, 0) == 0x7AE5 && f(0x7AE5, 0) == 0x9D73
  {
    assert Stepped(0x32E4, 1) == 0xB973 && Stepped(0xB973, 1) == 0x5CB9 && Stepped(0x5CB9, 1) == 0x2E5C && Stepped(0x2E5C, 0) == 0x172E;
    assert Stepped(0x172E, 1) == 0xAB96 && Stepped(0xAB96, 1) == 0xF5CA && Stepped(0xF5CA, 0) == 0x7AE5 && Stepped(0x7AE5, 0) == 0x9D73;
  }

  lemma Digit7(f: (int, int) -> int, x: seq<int>)
    requires |x| == 9 && x[0] == 0x32E4 && Stepping(f, 0x37, x) && Steps(f)
    ensures x[8] == 0x9D73
  {
    EightSteps(f, 0x37, x);
    Steps7(f);
  }

  lemma Steps8(f: (int, int) -> int)
    requires Steps(f)
    ensures f(0x9D73, 0) == 0xEEB8 && f(0xEEB8, 0) == 0x775C && f(0x775C, 0) == 0x3BAE && f(0x3BAE, 1) == 0xBDD6
    ensures f(0xBDD6, 1) == 0xFEEA && f(0xFEEA, 1) == 0xDF74 && f(0xDF74, 0) == 0x6FBA && f(0x6FBA, 0) == 0x37DD
  {
    assert Stepped(0x9D73, 0) == 0xEEB8 && Stepped(0xEEB8, 0) == 0x775C && Stepped(0x775C, 0) == 0x3BAE && Stepped(0x3BAE, 1) == 0xBDD6;
    assert Stepped(0xBDD6, 1) == 0xFEEA && Stepped(0xFEEA, 1) == 0xDF74 && Stepped(0xDF74, 0) == 0x6FBA && Stepped(0x6FBA, 0) == 0x37DD;
  }

  lemma Digit8(f: (int, int) -> int, x: seq<int>)
    requires |x| == 9 && x[0] == 0x9D73 && Stepping(f, 0x38, x) && Steps(f)
    ensures x[8] == 0x37DD
  {
    EightSteps(f, 0x38, x);
    Steps8(f);
  }

  lemma Steps9(f: (int, int) -> int)
    requires Steps(f)
    ensures f(0x37DD, 1) == 0x1BEE && f(0x1BEE, 0) == 0x0DF7 && f(0x0DF7, 0) == 0xA6FA && f(0xA6FA, 1) == 0xF37C
    ensures f(0xF37C, 1) == 0xD9BF && f(0xD9BF, 1) == 0x6CDF && f(0x6CDF, 0) == 0x966E && f(0x966E, 0) == 0x4B37
  {
    assert Stepped(0x37DD, 1) == 0x1BEE && Stepped(0x1BEE, 0) == 0x0DF7 && Stepped(0x0DF7, 0) == 0xA6FA && Stepped(0xA6FA, 1) == 0xF37C;
    assert Stepped(0xF37C, 1) == 0xD9BF && Stepped(0xD9BF, 1) == 0x6CDF && Stepped(0x6CDF, 0) == 0x966E && Stepped(0x966E, 0) == 0x4B37;
  }

  lemma Digit9(f: (int, int) -> int, x: seq<int>)
    requires |x| == 9 && x[0] == 0x37DD && Stepping(f, 0x39, x) && Steps(f)
    ensures x[8] == 0x4B37
  {
    EightSteps(f, 0x39, x);
    Steps9(f);
  }

  /** The registers while a message goes in byte by byte. */
  ghost predicate Traced(f: (int, int) -> int, m: seq<Byte>, x: seq<seq<int>>) {
    && |x| == |m| && (forall k :: 0 <= k < |m| ==> |x[k]| == 9 && Stepping(f, m[k], x[k]))
    && (m != [] ==> x[0][0] == 0xFFFF) && forall k :: 0 < k < |m| ==> x[k][0] == x[k - 1][8]
  }

  lemma {:induction false} Trace(f: (int, int) -> int, m: seq<Byte>) returns (x: seq<seq<int>>)
    requires m != [] && Steps(f)
    ensures Traced(f, m, x) && x[|m| - 1][8] == Crc(m)
  {
    var n := |m| - 1;
    var last := ByteSteps(f, m, n);
    assert m[..n + 1] == m;
    if n == 0 {
      x := [last];
    } else {
      var rest := Trace(f, m[..n]);
      x := rest + [last];
    }
  }

  lemma Digits(f: (int, int) -> int, m: seq<Byte>, x: seq<seq<int>>)
    requires |m| == 9 && (forall k :: 0 <= k < 9 ==> m[k] == 0x31 + k) && Steps(f) && Traced(f, m, x)
    ensures x[8][8] == 0x4B37
  {
    Digit1(f, x[0]);
    Digit2(f, x[1]);
    Digit3(f, x[2]);
    Digit4(f, x[3]);
    Digit5(f, x[4]);
    Digit6(f, x[5]);
    Digit7(f, x[6]);
    Digit8(f, x[7]);
    Digit9(f, x[8]);
  }

  /** The check value of the checksum: that of the digits from 1 to 9. */
  lemma CheckValue(m: seq<Byte>)
    requires |m| == 9 && forall k :: 0 <= k < 9 ==> m[k] == 0x31 + k
    ensures Crc(m) == 0x4B37
  {
    var x := Trace(Stepped, m);
    Digits(Stepped, m, x);
  }
}
