/**
 GF(2^8) with the polynomial x^8 + x^4 + x^3 + x^2 + 1, the field of the erasure code library:
 addition is xor, multiplication is shift-and-add. It obeys the laws the decoder relies on.
 */
module GaloisField {
  import opened LinearAlgebra

  /** A byte as a polynomial of degree below eight: the set of exponents whose coefficient is one. */
  type GF = s: set<nat> | forall i :: i in s ==> i < 8

  const ZERO: GF := {}
  const ONE: GF := {0}

  function Xor(a: GF, b: GF): GF {
    (a - b) + (b - a)
  }

  predicate TimesX(a: GF, j: nat) {
    (j >= 1 && j - 1 in a) != (7 in a && (j == 0 || j == 2 || j == 3 || j == 4))
  }

  /** Multiplication by x: the coefficient shifted out comes back as x^4 + x^3 + x^2 + 1. */
  function XTime(a: GF): GF {
    set j: nat | j < 8 && TimesX(a, j)
  }

  function XPow(a: GF, i: nat): GF {
    if i == 0 then a else XTime(XPow(a, i - 1))
  }

  function Select(c: bool, a: GF): GF {
    if c then a else ZERO
  }

  /** The product of `a` with the low `n` bits of `b`. */
  function MulLow(a: GF, b: GF, n: nat): GF {
    if n == 0 then ZERO else Xor(MulLow(a, b, n - 1), Select(n - 1 in b, XPow(a, n - 1)))
  }

  function Mul(a: GF, b: GF): GF {
    MulLow(a, b, 8)
  }

  const Field: Semiring<GF> := Semiring(ZERO, ONE, Xor, Mul)

  lemma XTimeXor(a: GF, b: GF)
    ensures XTime(Xor(a, b)) == Xor(XTime(a), XTime(b))
  {
  }

  lemma XorLaws(a: GF, b: GF, c: GF, d: GF)
    ensures Xor(Xor(a, b), Xor(c, d)) == Xor(Xor(a, c), Xor(b, d))
    ensures Xor(Xor(a, b), c) == Xor(a, Xor(b, c))
    ensures Xor(a, b) == Xor(b, a)
    ensures Xor(ZERO, a) == a
  {
  }

  lemma SelectXor(p: bool, q: bool, a: GF, b: GF)
    ensures Select(p, Xor(a, b)) == Xor(Select(p, a), Select(p, b))
    ensures Select(p != q, a) == Xor(Select(p, a), Select(q, a))
    ensures XTime(Select(p, a)) == Select(p, XTime(a))
  {
    assert Xor(ZERO, ZERO) == XTime(ZERO) == Xor(a, a) == ZERO;
    assert Xor(ZERO, a) == Xor(a, ZERO) == a;
  }

  /** The powers of x below the eighth are single bits, and x^8 is x^4 + x^3 + x^2 + 1. */
  lemma ReductionPolynomial()
    ensures forall i: nat :: i < 8 ==> XPow(ONE, i) == {i}
    ensures XPow(ONE, 8) == {0, 2, 3, 4}
  {
    assert XPow(ONE, 1) == {1};
    assert XPow(ONE, 2) == {2};
    assert XPow(ONE, 3) == {3};
    assert XPow(ONE, 4) == {4};
    assert XPow(ONE, 5) == {5};
    assert XPow(ONE, 6) == {6};
    assert XPow(ONE, 7) == {7};
    assert XPow(ONE, 8) == XTime({7}) == {0, 2, 3, 4};
  }

  lemma {:induction false} XPowXor(a: GF, b: GF, i: nat)
    ensures XPow(Xor(a, b), i) == Xor(XPow(a, i), XPow(b, i))
  {
    if i != 0 {
      XPowXor(a, b, i - 1);
      XTimeXor(XPow(a, i - 1), XPow(b, i - 1));
    }
  }

  lemma {:induction false} XPowXTime(a: GF, i: nat)
    ensures XPow(XTime(a), i) == XTime(XPow(a, i))
  {
    if i != 0 {
      XPowXTime(a, i - 1);
    }
  }

  lemma {:induction false} MulXorLeft(a: GF, b: GF, c: GF, n: nat)
    ensures MulLow(Xor(a, b), c, n) == Xor(MulLow(a, c, n), MulLow(b, c, n))
    decreases n
  {
    if n == 0 {
      XorLaws(ZERO, ZERO, ZERO, ZERO);
    } else {
      var bit, x, y := n - 1 in c, XPow(a, n - 1), XPow(b, n - 1);
      var p, q := MulLow(a, c, n - 1), MulLow(b, c, n - 1);
      calc {
        MulLow(Xor(a, b), c, n);
        { MulXorLeft(a, b, c, n - 1); XPowXor(a, b, n - 1); }
        Xor(Xor(p, q), Select(bit, Xor(x, y)));
        { SelectXor(bit, bit, x, y); }
        Xor(Xor(p, q), Xor(Select(bit, x), Select(bit, y)));
        { XorLaws(p, q, Select(bit, x), Select(bit, y)); }
        Xor(MulLow(a, c, n), MulLow(b, c, n));
      }
    }
  }

  lemma {:induction false} MulXorRight(a: GF, b: GF, c: GF, n: nat)
    ensures MulLow(a, Xor(b, c), n) == Xor(MulLow(a, b, n), MulLow(a, c, n))
    decreases n
  {
    if n == 0 {
      XorLaws(ZERO, ZERO, ZERO, ZERO);
    } else {
      var p, q, x := n - 1 in b, n - 1 in c, XPow(a, n - 1);
      var y, z := MulLow(a, b, n - 1), MulLow(a, c, n - 1);
      calc {
        MulLow(a, Xor(b, c), n);
        { MulXorRight(a, b, c, n - 1); assert n - 1 in Xor(b, c) <==> p != q; }
        Xor(Xor(y, z), Select(p != q, x));
        { SelectXor(p, q, x, x); }
        Xor(Xor(y, z), Xor(Select(p, x), Select(q, x)));
        { XorLaws(y, z, Select(p, x), Select(q, x)); }
        Xor(MulLow(a, b, n), MulLow(a, c, n));
      }
    }
  }

  lemma {:induction false} MulXTime(a: GF, b: GF, n: nat)
    ensures MulLow(XTime(a), b, n) == XTime(MulLow(a, b, n))
    decreases n
  {
    assert XTime(ZERO) == ZERO;
    if n != 0 {
      var bit, x := n - 1 in b, XPow(a, n - 1);
      MulXTime(a, b, n - 1);
      XPowXTime(a, n - 1);
      SelectXor(bit, bit, x, x);
      XTimeXor(MulLow(a, b, n - 1), Select(bit, x));
    }
  }

  lemma {:induction false} MulXPow(a: GF, b: GF, i: nat)
    ensures Mul(XPow(a, i), b) == XPow(Mul(a, b), i)
    decreases i
  {
    if i != 0 {
      MulXPow(a, b, i - 1);
      MulXTime(XPow(a, i - 1), b, 8);
    }
  }

  lemma {:induction false} MulZeroLeft(b: GF, n: nat)
    ensures MulLow(ZERO, b, n) == ZERO
    decreases n
  {
    if n != 0 {
      MulZeroLeft(b, n - 1);
      XPowZero(n - 1);
      XorLaws(ZERO, ZERO, ZERO, ZERO);
    }
  }

  lemma {:induction false} XPowZero(i: nat)
    ensures XPow(ZERO, i) == ZERO
  {
    if i != 0 {
      XPowZero(i - 1);
      assert XTime(ZERO) == ZERO;
    }
  }

  /** The low `n` coefficients of an element. */
  function Low(b: GF, n: nat): GF {
    set i | i in b && i < n
  }

  lemma {:induction false} PowersOfX(i: nat)
    requires i < 8
    ensures XPow(ONE, i) == {i}
  {
    if i != 0 {
      PowersOfX(i - 1);
      assert XTime({i - 1}) == {i};
    }
  }

  lemma {:induction false} MulOneLeft(b: GF, n: nat)
    requires n <= 8
    ensures MulLow(ONE, b, n) == Low(b, n)
    ensures n == 8 ==> Low(b, n) == b
    decreases n
  {
    if n != 0 {
      MulOneLeft(b, n - 1);
      PowersOfX(n - 1);
      assert Low(b, n) == Xor(Low(b, n - 1), Select(n - 1 in b, {n - 1}));
    }
  }

  lemma OneTimes(b: GF)
    ensures Mul(ONE, b) == b && Mul(ZERO, b) == ZERO
  {
    MulOneLeft(b, 8);
    MulZeroLeft(b, 8);
  }

  lemma SelectTimes(c: bool, a: GF, b: GF)
    ensures Mul(Select(c, a), b) == Select(c, Mul(a, b))
  {
    OneTimes(b);
  }

  lemma {:induction false} MulCommLow(a: GF, b: GF, n: nat)
    ensures MulLow(b, a, n) == Mul(MulLow(ONE, a, n), b)
    decreases n
  {
    OneTimes(b);
    if n != 0 {
      var bit, x, p := n - 1 in a, XPow(ONE, n - 1), MulLow(ONE, a, n - 1);
      calc {
        Mul(Xor(p, Select(bit, x)), b);
        { MulXorLeft(p, Select(bit, x), b, 8); }
        Xor(Mul(p, b), Mul(Select(bit, x), b));
        { MulCommLow(a, b, n - 1); SelectTimes(bit, x, b); MulXPow(ONE, b, n - 1); }
        Xor(MulLow(b, a, n - 1), Select(bit, XPow(b, n - 1)));
      }
    }
  }

  lemma Commutes(a: GF, b: GF)
    ensures Mul(a, b) == Mul(b, a)
  {
    MulCommLow(a, b, 8);
    OneTimes(a);
  }

  /** Multiplication by a power of x moves into the right factor. */
  lemma XPowRight(a: GF, b: GF, i: nat)
    ensures XPow(Mul(a, b), i) == Mul(a, XPow(b, i))
  {
    Commutes(a, b);
    MulXPow(b, a, i);
    Commutes(a, XPow(b, i));
  }

  lemma SelectTimesRight(c: bool, a: GF, b: GF)
    ensures Mul(a, Select(c, b)) == Select(c, Mul(a, b))
  {
    Commutes(a, ZERO);
    OneTimes(a);
  }

  lemma {:induction false} MulAssocLow(a: GF, b: GF, c: GF, n: nat)
    ensures MulLow(Mul(a, b), c, n) == Mul(a, MulLow(b, c, n))
    decreases n
  {
    if n == 0 {
      Commutes(a, ZERO);
      OneTimes(a);
    } else {
      var bit, x, p := n - 1 in c, XPow(b, n - 1), MulLow(b, c, n - 1);
      calc {
        Mul(a, Xor(p, Select(bit, x)));
        { MulXorRight(a, p, Select(bit, x), 8); }
        Xor(Mul(a, p), Mul(a, Select(bit, x)));
        { MulAssocLow(a, b, c, n - 1); SelectTimesRight(bit, a, x); XPowRight(a, b, n - 1); }
        Xor(MulLow(Mul(a, b), c, n - 1), Select(bit, XPow(Mul(a, b), n - 1)));
      }
    }
  }

  lemma FieldIsLawful()
    ensures Lawful(Field)
  {
    forall a: GF, b: GF, c: GF
      ensures AddAssoc(Field, a, b, c) && MulAssoc(Field, a, b, c) && Distributes(Field, a, b, c)
    {
      XorLaws(a, b, c, c);
      MulAssocLow(a, b, c, 8);
      MulXorRight(a, b, c, 8);
    }
    forall a: GF, b: GF
      ensures AddComm(Field, a, b) && MulComm(Field, a, b)
    {
      XorLaws(a, b, a, b);
      Commutes(a, b);
    }
    forall a: GF
      ensures AddZero(Field, a) && MulOneZero(Field, a)
    {
      XorLaws(a, a, a, a);
      OneTimes(a);
    }
  }
}
