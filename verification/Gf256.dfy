/**
 The field GF(256): polynomials over one bit, packed in a byte, modulo x^8 + x^4 + x^3 + x^2 + 1.
 Addition is exclusive or.
 */
module Gf256 {

  type Elt = bv8

  /** Multiplication by x: shift, and reduce by the field polynomial if a bit falls off. */
  function Xtime(a: Elt): Elt {
    (a << 1) ^ ((a >> 7) * 0x1D)
  }

  /** Multiplication by x, i times. */
  function Iter(i: nat, b: Elt): Elt {
    if i == 0 then b else Xtime(Iter(i - 1, b))
  }

  /** The powers of the generator x. */
  function Alpha(i: nat): Elt {
    Iter(i, 1)
  }

  lemma XtimeAdd(a: Elt, b: Elt)
    ensures Xtime(a ^ b) == Xtime(a) ^ Xtime(b)
  {}

  lemma XtimeZero(a: Elt)
    ensures Xtime(a) == 0 <==> a == 0
  {}

  lemma {:induction false} IterLinear(i: nat, a: Elt, b: Elt)
    ensures Iter(i, a ^ b) == Iter(i, a) ^ Iter(i, b)
  {
    if i > 0 {
      IterLinear(i - 1, a, b);
      XtimeAdd(Iter(i - 1, a), Iter(i - 1, b));
    }
  }

  lemma {:induction false} IterNonzero(i: nat, a: Elt)
    ensures Iter(i, a) == 0 <==> a == 0
  {
    if i > 0 {
      IterNonzero(i - 1, a);
      XtimeZero(Iter(i - 1, a));
    }
  }

  lemma {:induction false} IterAdd(i: nat, j: nat, b: Elt)
    ensures Iter(i + j, b) == Iter(i, Iter(j, b))
  {
    if i > 0 {
      IterAdd(i - 1, j, b);
      assert i + j - 1 == (i - 1) + j;
    }
  }

  function Xtime4(a: Elt): Elt {
    Xtime(Xtime(Xtime(Xtime(a))))
  }

  lemma Advance4(i: nat)
    ensures Alpha(i + 4) == Xtime4(Alpha(i))
  {
    assert Alpha(i + 2) == Xtime(Alpha(i + 1));
    assert Alpha(i + 4) == Xtime(Alpha(i + 3));
  }

  lemma Advance17(i: nat, from: Elt, to: Elt)
    requires Alpha(i) == from && to == Xtime(Xtime4(Xtime4(Xtime4(Xtime4(from)))))
    ensures Alpha(i + 17) == to
  {
    Advance4(i);
    Advance4(i + 4);
    Advance4(i + 8);
    Advance4(i + 12);
  }

  lemma AlphaValues()
    ensures Alpha(1) == 2 && Alpha(3) == 8 && Alpha(5) == 32 && Alpha(15) == 38
    ensures Alpha(17) == 152 && Alpha(51) == 10 && Alpha(85) == 214 && Alpha(255) == 1
  {
    Advance17(0, 1, 152);
    Advance17(17, 152, 78);
    Advance17(34, 78, 10);
    Advance17(51, 10, 153);
    Advance17(68, 153, 214);
    Advance17(85, 214, 68);
    Advance17(102, 68, 147);
    Advance17(119, 147, 79);
    Advance17(136, 79, 146);
    Advance17(153, 146, 215);
    Advance17(170, 215, 220);
    Advance17(187, 220, 221);
    Advance17(204, 221, 69);
    Advance17(221, 69, 11);
    Advance17(238, 11, 1);
  }

  lemma AlphaOfSix()
    ensures Alpha(1) == 2 && Alpha(2) == 4 && Alpha(26) == 6
  {
    AlphaValues();
    Advance4(17);
    Advance4(21);
    assert Alpha(2) == Xtime(Alpha(1)) && Alpha(26) == Xtime(Alpha(25));
  }

  lemma {:induction false} AlphaRepeats(d: nat, q: nat)
    requires Alpha(d) == 1
    ensures q * d >= 0 && Alpha(q * d) == 1
  {
    if q > 0 {
      AlphaRepeats(d, q - 1);
      assert q * d == d + (q - 1) * d;
      IterAdd(d, (q - 1) * d, 1);
    }
  }

  lemma DivisorsOf255(d: nat, q: nat)
    requires 0 < d < 255 && q * d == 255
    ensures d in {1, 3, 5, 15, 17, 51, 85}
  {
    assert d <= 15 || q <= 15 by {
      if d > 15 { assert (q - 15) * d == 255 - 15 * d; }
    }
    if d <= 15 {
      SmallDivisors(d, q);
    } else {
      SmallDivisors(q, d);
    }
  }

  lemma SmallDivisors(d: nat, q: nat)
    requires 0 < d <= 15 && q * d == 255
    ensures (d == 1 && q == 255) || (d == 3 && q == 85) || (d == 5 && q == 51) || (d == 15 && q == 17)
  {}

  lemma RemainderRepeats(n: nat, d: nat)
    requires 0 < d && Alpha(d) == 1 && Alpha(n) == 1
    ensures Alpha(n % d) == 1
  {
    var q, r := n / d, n % d;
    AlphaRepeats(d, q);
    IterAdd(r, q * d, 1);
    assert r + q * d == n;
  }

  /** x is primitive: its order is exactly 255. */
  lemma {:induction false} AlphaOrder(d: nat)
    requires 0 < d < 255
    ensures Alpha(d) != 1
    decreases d
  {
    AlphaValues();
    if Alpha(d) == 1 {
      RemainderRepeats(255, d);
      if 255 % d == 0 {
        DivisorsOf255(d, 255 / d);
      } else {
        AlphaOrder(255 % d);
      }
    }
  }

  lemma AlphaNonzero(i: nat)
    ensures Alpha(i) != 0
  {
    IterNonzero(i, 1);
  }

  lemma {:induction false} IterInjective(i: nat, a: Elt, b: Elt)
    requires Iter(i, a) == Iter(i, b)
    ensures a == b
  {
    IterLinear(i, a, b);
    IterNonzero(i, a ^ b);
  }

  lemma AlphaInjective(i: nat, j: nat)
    requires i < j < 255
    ensures Alpha(i) != Alpha(j)
  {
    if Alpha(i) == Alpha(j) {
      IterAdd(i, j - i, 1);
      IterInjective(i, 1, Alpha(j - i));
      AlphaOrder(j - i);
    }
  }

  /** The n first powers of x, as numbers. */
  ghost function Powers(n: nat): set<int> {
    if n == 0 then {} else Powers(n - 1) + {Alpha(n - 1) as int}
  }

  lemma {:induction false} PowersMembers(n: nat, v: int)
    ensures v in Powers(n) <==> exists i: nat :: i < n && Alpha(i) as int == v
  {
    if n > 0 {
      PowersMembers(n - 1, v);
      if v == Alpha(n - 1) as int {
        assert n - 1 < n && Alpha(n - 1) as int == v;
      }
    }
  }

  lemma AsIntInjective(a: Elt, b: Elt)
    requires a as int == b as int
    ensures a == b
  {}

  lemma PowersFresh(n: nat)
    requires n < 255
    ensures Alpha(n) as int !in Powers(n)
  {
    PowersMembers(n, Alpha(n) as int);
    forall i: nat | i < n
      ensures Alpha(i) as int != Alpha(n) as int
    {
      AlphaInjective(i, n);
      if Alpha(i) as int == Alpha(n) as int {
        AsIntInjective(Alpha(i), Alpha(n));
      }
    }
  }

  lemma {:induction false} PowersCount(n: nat)
    requires n <= 255
    ensures |Powers(n)| == n
  {
    if n > 0 {
      PowersCount(n - 1);
      PowersFresh(n - 1);
    }
  }

  ghost function Below(n: nat): (s: set<int>)
    ensures |s| == n && forall v :: v in s <==> 1 <= v <= n
  {
    if n == 0 then {} else Below(n - 1) + {n}
  }

  lemma SubsetOfSameSize(a: set<int>, b: set<int>)
    requires a <= b && |a| == |b|
    ensures a == b
  {
    assert |b - a| == |b| - |a|;
  }

  lemma PowersCover()
    ensures Powers(255) == Below(255)
  {
    forall v | v in Powers(255)
      ensures v in Below(255)
    {
      PowersMembers(255, v);
      var i: nat :| i < 255 && Alpha(i) as int == v;
      AlphaNonzero(i);
      if Alpha(i) as int == 0 {
        AsIntInjective(Alpha(i), 0);
      }
    }
    PowersCount(255);
    SubsetOfSameSize(Powers(255), Below(255));
  }

  /** Every nonzero element is one of the 255 first powers of x. */
  lemma LogExists(a: Elt)
    requires a != 0
    ensures exists i: nat :: i < 255 && Alpha(i) == a
  {
    if a as int == 0 {
      AsIntInjective(a, 0);
    }
    PowersCover();
    PowersMembers(255, a as int);
    var i: nat :| i < 255 && Alpha(i) as int == a as int;
    AsIntInjective(Alpha(i), a);
  }

  ghost function Log(a: Elt): (i: nat)
    requires a != 0
    ensures i < 255 && Alpha(i) == a
  {
    LogExists(a);
    var i: nat :| i < 255 && Alpha(i) == a;
    i
  }

  /** r is a * b: b multiplied by x as many times as makes a out of 1. */
  ghost predicate IsProduct(a: Elt, b: Elt, r: Elt) {
    (a == 0 ==> r == 0) && forall i: nat {:trigger Iter(i, b)} :: Alpha(i) == a ==> r == Iter(i, b)
  }

  lemma IterAlphaComm(i: nat, j: nat)
    ensures Iter(i, Alpha(j)) == Alpha(i + j) == Iter(j, Alpha(i))
  {
    IterAdd(i, j, 1);
    IterAdd(j, i, 1);
  }

  lemma ProductExists(a: Elt, b: Elt)
    ensures exists r :: IsProduct(a, b, r)
  {
    if a == 0 {
      forall i: nat
        ensures Alpha(i) != a
      {
        AlphaNonzero(i);
      }
      assert IsProduct(a, b, 0);
    } else {
      var r := Iter(Log(a), b);
      forall i: nat | Alpha(i) == a
        ensures r == Iter(i, b)
      {
        if b == 0 {
          IterNonzero(i, b);
          IterNonzero(Log(a), b);
        } else {
          IterAlphaComm(i, Log(b));
          IterAlphaComm(Log(a), Log(b));
        }
      }
      assert IsProduct(a, b, r);
    }
  }

  /** The product in the field. */
  ghost function Mul(a: Elt, b: Elt): Elt {
    ProductExists(a, b);
    var r :| IsProduct(a, b, r);
    r
  }

  lemma MulPower(i: nat, b: Elt)
    ensures Mul(Alpha(i), b) == Iter(i, b)
  {}

  lemma MulAlpha(i: nat, j: nat)
    ensures Mul(Alpha(i), Alpha(j)) == Alpha(i + j)
  {
    MulPower(i, Alpha(j));
    IterAlphaComm(i, j);
  }

  lemma MulZero(a: Elt, b: Elt)
    ensures Mul(a, b) == 0 <==> a == 0 || b == 0
  {
    if a != 0 {
      MulPower(Log(a), b);
      IterNonzero(Log(a), b);
    }
  }

  lemma MulOne(a: Elt)
    ensures Mul(1, a) == a && Mul(a, 1) == a
  {
    MulPower(0, a);
    if a == 0 {
      MulZero(a, 1);
    } else {
      MulPower(Log(a), 1);
    }
  }

  lemma MulComm(a: Elt, b: Elt)
    ensures Mul(a, b) == Mul(b, a)
  {
    MulZero(a, b);
    MulZero(b, a);
    if a != 0 && b != 0 {
      MulAlpha(Log(a), Log(b));
      MulAlpha(Log(b), Log(a));
    }
  }

  lemma MulAdd(a: Elt, b: Elt, c: Elt)
    ensures Mul(a, b ^ c) == Mul(a, b) ^ Mul(a, c)
  {
    if a == 0 {
      MulZero(a, b ^ c);
      MulZero(a, b);
      MulZero(a, c);
    } else {
      MulPower(Log(a), b ^ c);
      MulPower(Log(a), b);
      MulPower(Log(a), c);
      IterLinear(Log(a), b, c);
    }
  }

  lemma MulAssoc(a: Elt, b: Elt, c: Elt)
    ensures Mul(a, Mul(b, c)) == Mul(Mul(a, b), c)
  {
    if a == 0 || b == 0 {
      MulZero(a, Mul(b, c));
      MulZero(b, c);
      MulZero(a, b);
      MulZero(Mul(a, b), c);
    } else {
      var i, j := Log(a), Log(b);
      MulPower(j, c);
      MulPower(i, Iter(j, c));
      MulAlpha(i, j);
      MulPower(i + j, c);
      IterAdd(i, j, c);
    }
  }

  /** The multiplicative inverse, by logarithms. */
  ghost function Inv(a: Elt): Elt
    requires a != 0
  {
    Alpha(255 - Log(a))
  }

  lemma InvIsInverse(a: Elt)
    requires a != 0
    ensures Mul(a, Inv(a)) == 1 && Inv(a) != 0
  {
    MulAlpha(Log(a), 255 - Log(a));
    AlphaValues();
    AlphaNonzero(255 - Log(a));
  }

  lemma MulXtime(a: Elt, b: Elt)
    ensures Mul(Xtime(a), b) == Xtime(Mul(a, b))
  {
    MulPower(1, a);
    MulPower(1, Mul(a, b));
    MulAssoc(Alpha(1), a, b);
  }

  lemma MulXtimePlusOne(h: Elt, b: Elt)
    ensures Mul(Xtime(h) ^ 1, b) == Xtime(Mul(h, b)) ^ b
  {
    var g := Xtime(h);
    MulComm(g ^ 1, b);
    MulAdd(b, g, 1);
    MulComm(b, g);
    MulXtime(h, b);
    MulOne(b);
  }

  /**
   The polynomial over one bit with these coefficients, lowest first, times b, by schoolbook
   shift and add. With b = 1 it is the polynomial itself, reduced to a byte.
   */
  function ShiftAndAdd(bits: seq<bool>, b: Elt): Elt {
    if bits == [] then 0
    else if bits[0] then Xtime(ShiftAndAdd(bits[1..], b)) ^ b
    else Xtime(ShiftAndAdd(bits[1..], b))
  }

  /** The logarithmic product is polynomial multiplication modulo the field polynomial. */
  lemma {:induction false} MulIsPolynomialProduct(bits: seq<bool>, b: Elt)
    ensures Mul(ShiftAndAdd(bits, 1), b) == ShiftAndAdd(bits, b)
  {
    if bits == [] {
      MulZero(0, b);
    } else {
      var h := ShiftAndAdd(bits[1..], 1);
      MulIsPolynomialProduct(bits[1..], b);
      if bits[0] {
        MulXtimePlusOne(h, b);
      } else {
        MulXtime(h, b);
      }
    }
  }

  /** The n low bits of a, lowest first. */
  function Bits(a: Elt, n: nat): seq<bool> {
    if n == 0 then [] else [a & 1 == 1] + Bits(a >> 1, n - 1)
  }

  /** Only the n low bits of a can be set. */
  predicate Fits(a: Elt, n: nat) {
    if n == 0 then a == 0 else Fits(a >> 1, n - 1)
  }

  lemma SplitLowBit(a: Elt)
    ensures a & 1 == 1 ==> a == Xtime(a >> 1) ^ 1
    ensures a & 1 != 1 ==> a == Xtime(a >> 1)
  {}

  lemma {:induction false} BitsValue(a: Elt, n: nat)
    requires Fits(a, n)
    ensures ShiftAndAdd(Bits(a, n), 1) == a
  {
    if n > 0 {
      BitsValue(a >> 1, n - 1);
      SplitLowBit(a);
      assert Bits(a, n)[1..] == Bits(a >> 1, n - 1);
    }
  }

  lemma BitsOfByte(a: Elt)
    ensures ShiftAndAdd(Bits(a, 8), 1) == a
  {
    var a1 := a >> 1;
    var a2 := a1 >> 1;
    var a3 := a2 >> 1;
    var a4 := a3 >> 1;
    var a5 := a4 >> 1;
    var a6 := a5 >> 1;
    var a7 := a6 >> 1;
    assert a7 >> 1 == 0;
    assert Fits(a7, 1);
    assert Fits(a6, 2);
    assert Fits(a5, 3);
    assert Fits(a4, 4);
    assert Fits(a3, 5);
    assert Fits(a2, 6);
    assert Fits(a1, 7);
    BitsValue(a, 8);
  }

  /** For bytes: the product by logarithms is shift and add over the bits of one of them. */
  lemma MulIsShiftAndAdd(a: Elt, b: Elt)
    ensures Mul(a, b) == ShiftAndAdd(Bits(a, 8), b)
  {
    BitsOfByte(a);
    MulIsPolynomialProduct(Bits(a, 8), b);
  }
}
