/**
 The field GF(256) as the error correction uses it: an element is a byte, addition and
 multiplication are known to the rest of the proof only through the laws stated here.
 */
module Field {
  import G = Gf256

  datatype Elt = Elt(byte: bv8)

  const Zero := Elt(0)
  const One := Elt(1)

  // What a sum or a product is in terms of bytes stays behind the predicate Bytes, so that a
  // proof which needs only the laws of a field never looks at bits.

  ghost predicate Bytes(x: bv8, y: bv8) {
    true
  }

  type Operation = (Elt, Elt) -> Elt

  ghost predicate IsAddition(f: Operation) {
    forall x, y {:trigger Bytes(x, y)} :: f(Elt(x), Elt(y)) == Elt(x ^ y)
  }

  ghost predicate IsMultiplication(f: Operation) {
    forall x, y {:trigger Bytes(x, y)} :: f(Elt(x), Elt(y)) == Elt(G.Mul(x, y))
  }

  ghost function Addition(): Operation {
    var f: Operation := (a: Elt, b: Elt) => Elt(a.byte ^ b.byte);
    assert IsAddition(f);
    var f :| IsAddition(f);
    f
  }

  ghost function Multiplication(): Operation {
    var f: Operation := (a: Elt, b: Elt) => Elt(G.Mul(a.byte, b.byte));
    assert IsMultiplication(f);
    var f :| IsMultiplication(f);
    f
  }

  ghost function Add(a: Elt, b: Elt): Elt {
    Addition()(a, b)
  }

  ghost function Mul(a: Elt, b: Elt): Elt {
    Multiplication()(a, b)
  }

  lemma AddBytes(x: bv8, y: bv8)
    ensures Add(Elt(x), Elt(y)) == Elt(x ^ y)
  {
    assert Bytes(x, y);
  }

  lemma MulBytes(x: bv8, y: bv8)
    ensures Mul(Elt(x), Elt(y)) == Elt(G.Mul(x, y))
  {
    assert Bytes(x, y);
  }

  lemma AddComm(a: Elt, b: Elt)
    ensures Add(a, b) == Add(b, a)
  {
    AddBytes(a.byte, b.byte);
    AddBytes(b.byte, a.byte);
  }

  lemma XorAssoc(x: bv8, y: bv8, z: bv8)
    ensures x ^ (y ^ z) == (x ^ y) ^ z
  {}

  lemma AddAssoc(a: Elt, b: Elt, c: Elt)
    ensures Add(a, Add(b, c)) == Add(Add(a, b), c)
  {
    var x, y, z := a.byte, b.byte, c.byte;
    AddBytes(y, z);
    AddBytes(x, y);
    AddBytes(x, y ^ z);
    AddBytes(x ^ y, z);
    XorAssoc(x, y, z);
  }

  lemma AddZero(a: Elt)
    ensures Add(a, Zero) == a && Add(Zero, a) == a && Add(a, a) == Zero
  {
    AddBytes(a.byte, 0);
    AddBytes(0, a.byte);
    AddBytes(a.byte, a.byte);
  }

  lemma MulAdd(a: Elt, b: Elt, c: Elt)
    ensures Mul(a, Add(b, c)) == Add(Mul(a, b), Mul(a, c))
  {
    var x, y, z := a.byte, b.byte, c.byte;
    AddBytes(y, z);
    MulBytes(x, y ^ z);
    MulBytes(x, y);
    MulBytes(x, z);
    AddBytes(G.Mul(x, y), G.Mul(x, z));
    G.MulAdd(x, y, z);
  }

  lemma MulComm(a: Elt, b: Elt)
    ensures Mul(a, b) == Mul(b, a)
  {
    MulBytes(a.byte, b.byte);
    MulBytes(b.byte, a.byte);
    G.MulComm(a.byte, b.byte);
  }

  lemma MulAssoc(a: Elt, b: Elt, c: Elt)
    ensures Mul(a, Mul(b, c)) == Mul(Mul(a, b), c)
  {
    var x, y, z := a.byte, b.byte, c.byte;
    MulBytes(y, z);
    MulBytes(x, y);
    MulBytes(x, G.Mul(y, z));
    MulBytes(G.Mul(x, y), z);
    G.MulAssoc(x, y, z);
  }

  lemma MulZero(a: Elt, b: Elt)
    ensures Mul(a, b) == Zero <==> a == Zero || b == Zero
  {
    MulBytes(a.byte, b.byte);
    G.MulZero(a.byte, b.byte);
  }

  lemma MulOne(a: Elt)
    ensures Mul(One, a) == a && Mul(a, One) == a
  {
    MulBytes(1, a.byte);
    MulBytes(a.byte, 1);
    G.MulOne(a.byte);
  }

  lemma InverseExists(a: Elt)
    requires a != Zero
    ensures exists b :: b != Zero && Mul(a, b) == One
  {
    var b := G.Inv(a.byte);
    G.InvIsInverse(a.byte);
    MulBytes(a.byte, b);
    assert Elt(b) != Zero && Mul(a, Elt(b)) == One;
  }

  ghost function Inv(a: Elt): (b: Elt)
    requires a != Zero
    ensures b != Zero && Mul(a, b) == One
  {
    InverseExists(a);
    var b :| b != Zero && Mul(a, b) == One;
    b
  }

  ghost predicate IsPower(i: nat, r: Elt) {
    forall k: nat :: k == i ==> r == Elt(G.Alpha(k))
  }

  /** The powers of the generator. */
  ghost function Alpha(i: nat): Elt {
    assert IsPower(i, Elt(G.Alpha(i)));
    var r :| IsPower(i, r);
    r
  }

  lemma AlphaByte(i: nat)
    ensures Alpha(i) == Elt(G.Alpha(i))
  {}

  lemma AlphaPlus(i: nat, j: nat)
    ensures Mul(Alpha(i), Alpha(j)) == Alpha(i + j)
  {
    AlphaByte(i);
    AlphaByte(j);
    AlphaByte(i + j);
    G.MulAlpha(i, j);
    MulBytes(G.Alpha(i), G.Alpha(j));
  }

  lemma AlphaUnits()
    ensures Alpha(0) == Alpha(255) == One
  {
    AlphaByte(0);
    AlphaByte(255);
    G.AlphaValues();
  }

  lemma AlphaNonzero(i: nat)
    ensures Alpha(i) != Zero
  {
    AlphaByte(i);
    G.AlphaNonzero(i);
  }

  lemma AlphaDistinct(i: nat, j: nat)
    requires i < j < 255
    ensures Alpha(i) != Alpha(j)
  {
    AlphaByte(i);
    AlphaByte(j);
    G.AlphaInjective(i, j);
  }

  lemma LogExists(a: Elt)
    requires a != Zero
    ensures exists i: nat :: i < 255 && Alpha(i) == a
  {
    G.LogExists(a.byte);
    var i: nat :| i < 255 && G.Alpha(i) == a.byte;
    AlphaByte(i);
    assert Alpha(i) == a;
  }

  // Consequences used throughout.

  lemma AddCancel(a: Elt, b: Elt)
    ensures Add(a, Add(a, b)) == b && Add(Add(b, a), a) == b
    ensures Add(a, b) == Zero <==> a == b
  {
    AddAssoc(a, a, b);
    AddAssoc(b, a, a);
    AddZero(a);
    AddZero(b);
    if Add(a, b) == Zero {
      AddZero(a);
    }
  }

  lemma AddSwap(a: Elt, b: Elt, c: Elt)
    ensures Add(a, Add(b, c)) == Add(b, Add(a, c))
  {
    AddAssoc(a, b, c);
    AddAssoc(b, a, c);
    AddComm(a, b);
  }

  lemma AddFour(a: Elt, b: Elt, c: Elt, d: Elt)
    ensures Add(Add(a, b), Add(c, d)) == Add(Add(a, c), Add(b, d))
  {
    AddAssoc(a, b, Add(c, d));
    AddSwap(b, c, d);
    AddAssoc(a, c, Add(b, d));
  }

  lemma MulAddLeft(a: Elt, b: Elt, c: Elt)
    ensures Mul(Add(a, b), c) == Add(Mul(a, c), Mul(b, c))
  {
    MulComm(Add(a, b), c);
    MulAdd(c, a, b);
    MulComm(c, a);
    MulComm(c, b);
  }

  lemma MulSwap(a: Elt, b: Elt, c: Elt)
    ensures Mul(a, Mul(b, c)) == Mul(b, Mul(a, c))
  {
    MulAssoc(a, b, c);
    MulAssoc(b, a, c);
    MulComm(a, b);
  }
}
