/**
 * Exclusive or on machine words, as a function of naturals.
 *
 * A word is halved bit by bit, so that the laws of exclusive or hold for words of any width, and shifts are divisions
 * and multiplications by powers of two.
 */
module Bits {
  function Xor(a: nat, b: nat): nat
    decreases a + b
  {
    if a == 0 && b == 0 then 0 else 2 * Xor(a / 2, b / 2) + (a + b) % 2
  }

  function Pow2(n: nat): (m: nat)
    ensures m > 0
  {
    if n == 0 then 1 else 2 * Pow2(n - 1)
  }

  lemma XorParts(a: nat, b: nat)
    ensures Xor(a, b) / 2 == Xor(a / 2, b / 2)
    ensures Xor(a, b) % 2 == (a + b) % 2
  {}

  lemma {:induction false} XorCommutes(a: nat, b: nat)
    ensures Xor(a, b) == Xor(b, a)
    decreases a + b
  {
    if a + b > 0 { XorCommutes(a / 2, b / 2); }
  }

  lemma SamePart(u: nat, v: nat)
    requires u / 2 == v / 2 && u % 2 == v % 2
    ensures u == v
  {}

  lemma {:induction false} XorAssociates(a: nat, b: nat, c: nat)
    ensures Xor(Xor(a, b), c) == Xor(a, Xor(b, c))
    decreases a + b + c
  {
    if a + b + c > 0 {
      XorAssociates(a / 2, b / 2, c / 2);
      XorParts(a, b);
      XorParts(b, c);
      AssociateParity(a, b, c);
      SamePart(Xor(Xor(a, b), c), Xor(a, Xor(b, c))) by {
        XorParts(Xor(a, b), c);
        XorParts(a, Xor(b, c));
      }
    }
  }

  lemma XorParity(a: nat, b: nat)
    ensures Xor(a, b) % 2 == (a + b) % 2
  {}

  lemma AssociateParity(a: nat, b: nat, c: nat)
    ensures Xor(Xor(a, b), c) % 2 == Xor(a, Xor(b, c)) % 2
  {
    XorParity(a, b);
    XorParity(b, c);
    XorParity(Xor(a, b), c);
    XorParity(a, Xor(b, c));
    MixedParity(a, b, c, Xor(a, b), Xor(b, c));
  }

  lemma MixedParity(a: nat, b: nat, c: nat, p: nat, q: nat)
    requires p % 2 == (a + b) % 2 && q % 2 == (b + c) % 2
    ensures (p + c) % 2 == (a + q) % 2
  {}

  lemma {:induction false} XorZero(a: nat)
    ensures Xor(a, 0) == a && Xor(0, a) == a
  {
    if a == 0 {
    } else {
      XorZero(a / 2);
    }
  }

  lemma {:induction false} XorSame(a: nat, b: nat)
    ensures Xor(a, b) == 0 <==> a == b
    decreases a + b
  {
    if a + b > 0 {
      XorSame(a / 2, b / 2);
      XorParts(a, b);
    }
  }

  /** A word added on both sides cancels. */
  lemma XorCancels(a: nat, b: nat, c: nat)
    ensures Xor(Xor(a, c), Xor(b, c)) == Xor(a, b)
  {
    XorRegroup(a, c, b, c);
    XorSame(c, c);
    XorZero(Xor(a, b));
  }

  lemma XorRegroup(a: nat, b: nat, c: nat, d: nat)
    ensures Xor(Xor(a, b), Xor(c, d)) == Xor(Xor(a, c), Xor(b, d))
  {
    XorAssociates(a, b, Xor(c, d));
    XorAssociates(b, c, d);
    XorCommutes(b, c);
    XorAssociates(c, b, d);
    XorAssociates(a, c, Xor(b, d));
  }

  lemma {:induction false} XorBound(a: nat, b: nat, n: nat)
    requires a < Pow2(n) && b < Pow2(n)
    ensures Xor(a, b) < Pow2(n)
  {
    if n == 0 {
    } else {
      XorBound(a / 2, b / 2, n - 1);
      XorParts(a, b);
    }
  }

  lemma XorEven(lo: nat, h: nat)
    requires Xor(lo / 2, h) == lo / 2 + h
    ensures Xor(lo, 2 * h) == lo + 2 * h
  {
    XorParts(lo, 2 * h);
    assert (2 * h) / 2 == h;
    assert (lo + 2 * h) % 2 == lo % 2;
    assert (lo + 2 * h) / 2 == lo / 2 + h;
    SamePart(Xor(lo, 2 * h), lo + 2 * h);
  }

  /** Words without a common bit position add up. */
  lemma {:induction false} XorDisjoint(lo: nat, hi: nat, n: nat)
    requires lo < Pow2(n)
    ensures Xor(lo, hi * Pow2(n)) == lo + hi * Pow2(n)
  {
    if n == 0 {
      XorZero(hi);
    } else {
      var h := hi * Pow2(n - 1);
      assert hi * Pow2(n) == 2 * h;
      XorDisjoint(lo / 2, hi, n - 1);
      XorEven(lo, h);
    }
  }

  lemma {:induction false} Pow2Sum(m: nat, n: nat)
    ensures Pow2(m + n) == Pow2(m) * Pow2(n)
  {
    if n == 0 {
    } else {
      Pow2Sum(m, n - 1);
    }
  }

  /** The number of one bits. */
  function Ones(a: nat): nat {
    if a == 0 then 0 else a % 2 + Ones(a / 2)
  }

  predicate OddOnes(a: nat) {
    Ones(a) % 2 == 1
  }

  lemma OddOnesStep(a: nat)
    ensures OddOnes(a) == ((a % 2 == 1) != OddOnes(a / 2))
  {}

  lemma ParityDiffers(a: nat, b: nat)
    ensures Xor(a, b) % 2 == 1 <==> (a % 2 == 1) != (b % 2 == 1)
  {
    XorParity(a, b);
  }

  lemma {:induction false} OddOnesXor(a: nat, b: nat)
    ensures OddOnes(Xor(a, b)) == (OddOnes(a) != OddOnes(b))
    decreases a + b
  {
    if a + b > 0 {
      OddOnesXor(a / 2, b / 2);
      ParityDiffers(a, b);
      OddOnesStep(a);
      OddOnesStep(b);
      OddOnesStep(Xor(a, b));
      assert Xor(a, b) / 2 == Xor(a / 2, b / 2) by { XorParts(a, b); }
    }
  }
}
