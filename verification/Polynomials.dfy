/** Polynomials over the field, as coefficient sequences, lowest coefficient first. */
module Polynomials {
  import opened Field

  type Poly = seq<Elt>

  ghost function Eval(f: Poly, z: Elt): Elt {
    if f == [] then Zero else Add(f[0], Mul(z, Eval(f[1..], z)))
  }

  ghost predicate IsZero(f: Poly) {
    forall i :: 0 <= i < |f| ==> f[i] == Zero
  }

  ghost predicate Distinct(s: seq<Elt>) {
    forall i, j :: 0 <= i < j < |s| ==> s[i] != s[j]
  }

  ghost predicate AreRoots(f: Poly, s: seq<Elt>) {
    forall i :: 0 <= i < |s| ==> Eval(f, s[i]) == Zero
  }

  /** The quotient of f by z + y. */
  ghost function Quot(f: Poly, y: Elt): (q: Poly)
    ensures |q| == if f == [] then 0 else |f| - 1
  {
    if |f| <= 1 then [] else [Eval(f[1..], y)] + Quot(f[1..], y)
  }

  lemma {:induction false} QuotAt(f: Poly, y: Elt, i: nat)
    requires i + 1 < |f|
    ensures Quot(f, y)[i] == Eval(f[i + 1..], y)
  {
    if i > 0 {
      QuotAt(f[1..], y, i - 1);
      assert f[1..][i..] == f[i + 1..];
    }
  }

  lemma DivisionStep(f0: Elt, h: Elt, q: Elt, y: Elt, z: Elt)
    ensures Add(f0, Mul(z, Add(Mul(Add(z, y), q), h)))
         == Add(Mul(Add(z, y), Add(h, Mul(z, q))), Add(f0, Mul(y, h)))
  {
    var w := Add(z, y);
    var t, a, b := Mul(w, Mul(z, q)), Mul(z, h), Mul(y, h);
    assert Mul(z, Add(Mul(w, q), h)) == Add(t, a) by {
      MulAdd(z, Mul(w, q), h);
      MulSwap(z, w, q);
    }
    assert Mul(w, Add(h, Mul(z, q))) == Add(t, Add(a, b)) by {
      MulAdd(w, h, Mul(z, q));
      MulAddLeft(z, y, h);
      AddComm(Add(a, b), t);
    }
    assert Add(Add(t, Add(a, b)), Add(f0, b)) == Add(f0, Add(t, a)) by {
      AddSwap(Add(t, Add(a, b)), f0, b);
      AddAssoc(t, a, b);
      AddCancel(b, Add(t, a));
    }
  }

  /** Division with remainder by z + y. */
  lemma {:induction false} Division(f: Poly, y: Elt, z: Elt)
    ensures Eval(f, z) == Add(Mul(Add(z, y), Eval(Quot(f, y), z)), Eval(f, y))
  {
    if |f| <= 1 {
      MulZero(Add(z, y), Zero);
      AddZero(Eval(f, y));
      if |f| == 1 {
        MulZero(z, Zero);
        MulZero(y, Zero);
      }
    } else {
      Division(f[1..], y, z);
      assert Quot(f, y)[1..] == Quot(f[1..], y);
      DivisionStep(f[0], Eval(f[1..], y), Eval(Quot(f[1..], y), z), y, z);
    }
  }

  lemma {:induction false} EvalOfZero(f: Poly, z: Elt)
    requires IsZero(f)
    ensures Eval(f, z) == Zero
  {
    if f != [] {
      EvalOfZero(f[1..], z);
      MulZero(z, Zero);
      AddZero(Zero);
    }
  }

  lemma {:induction false} ZeroQuotient(f: Poly, y: Elt)
    requires IsZero(Quot(f, y)) && Eval(f, y) == Zero
    ensures IsZero(f)
  {
    if f != [] {
      if |f| > 1 {
        assert Quot(f, y)[0] == Eval(f[1..], y);
        assert Quot(f, y)[1..] == Quot(f[1..], y);
        ZeroQuotient(f[1..], y);
      }
      MulZero(y, Zero);
      AddZero(f[0]);
    }
  }

  /** A root of f other than y is a root of the quotient by z + y. */
  lemma QuotientRoot(f: Poly, y: Elt, z: Elt)
    requires Eval(f, y) == Zero && Eval(f, z) == Zero && z != y
    ensures Eval(Quot(f, y), z) == Zero
  {
    Division(f, y, z);
    AddCancel(z, y);
    AddZero(Mul(Add(z, y), Eval(Quot(f, y), z)));
    MulZero(Add(z, y), Eval(Quot(f, y), z));
  }

  /** A polynomial with at least as many distinct roots as coefficients is zero. */
  lemma {:induction false} RootBound(f: Poly, roots: seq<Elt>)
    requires Distinct(roots) && |f| <= |roots| && AreRoots(f, roots)
    ensures IsZero(f)
    decreases |f|
  {
    if f != [] {
      var y, rest := roots[0], roots[1..];
      forall i | 0 <= i < |rest|
        ensures Eval(Quot(f, y), rest[i]) == Zero
      {
        QuotientRoot(f, y, roots[i + 1]);
      }
      RootBound(Quot(f, y), rest);
      ZeroQuotient(f, y);
    }
  }

  /** The formal derivative at y. */
  ghost function Deriv(f: Poly, y: Elt): Elt {
    if f == [] then Zero else Add(Eval(f[1..], y), Mul(y, Deriv(f[1..], y)))
  }

  lemma {:induction false} DerivIsQuotient(f: Poly, y: Elt)
    ensures Deriv(f, y) == Eval(Quot(f, y), y)
  {
    if |f| == 1 {
      MulZero(y, Zero);
      AddZero(Zero);
    } else if |f| > 1 {
      DerivIsQuotient(f[1..], y);
      assert Quot(f, y)[1..] == Quot(f[1..], y);
    }
  }

  lemma SimpleRoot(f: Poly, roots: seq<Elt>, k: nat)
    requires Distinct(roots) && |f| <= |roots| + 1 && AreRoots(f, roots) && k < |roots|
    requires Deriv(f, roots[k]) == Zero
    ensures IsZero(f)
  {
    var z := roots[k];
    DerivIsQuotient(f, z);
    forall i | 0 <= i < |roots|
      ensures Eval(Quot(f, z), roots[i]) == Zero
    {
      if i != k {
        QuotientRoot(f, z, roots[i]);
      }
    }
    RootBound(Quot(f, z), roots);
    ZeroQuotient(f, z);
  }

  /** A nonzero polynomial with as many known roots as its degree has only those, all simple. */
  lemma AllRoots(f: Poly, roots: seq<Elt>, z: Elt)
    requires Distinct(roots) && |f| <= |roots| + 1 && !IsZero(f) && AreRoots(f, roots)
    ensures Eval(f, z) == Zero <==> z in roots
    ensures z in roots ==> Deriv(f, z) != Zero
  {
    if z in roots {
      var k :| 0 <= k < |roots| && roots[k] == z;
      if Deriv(f, z) == Zero {
        SimpleRoot(f, roots, k);
      }
    } else if Eval(f, z) == Zero {
      RootBound(f, roots + [z]);
    }
  }

  /** The product of (z + x) over the x in s. */
  ghost function Product(s: seq<Elt>): (f: Poly)
    ensures |f| == |s| + 1
  {
    if s == [] then [One]
    else
      var g := Product(s[1..]);
      Plus(Scale(s[0], g + [Zero]), [Zero] + g)
  }

  ghost function Plus(f: Poly, g: Poly): Poly
    requires |f| == |g|
  {
    seq(|f|, i requires 0 <= i < |f| => Add(f[i], g[i]))
  }

  ghost function Scale(c: Elt, f: Poly): Poly {
    seq(|f|, i requires 0 <= i < |f| => Mul(c, f[i]))
  }

  lemma {:induction false} EvalPlus(f: Poly, g: Poly, z: Elt)
    requires |f| == |g|
    ensures Eval(Plus(f, g), z) == Add(Eval(f, z), Eval(g, z))
  {
    if f == [] {
      AddZero(Zero);
    } else {
      EvalPlus(f[1..], g[1..], z);
      assert Plus(f, g)[1..] == Plus(f[1..], g[1..]);
      var a, b := Eval(f[1..], z), Eval(g[1..], z);
      MulAdd(z, a, b);
      AddFour(f[0], g[0], Mul(z, a), Mul(z, b));
    }
  }

  lemma {:induction false} EvalScale(c: Elt, f: Poly, z: Elt)
    ensures Eval(Scale(c, f), z) == Mul(c, Eval(f, z))
  {
    if f == [] {
      MulZero(c, Zero);
    } else {
      EvalScale(c, f[1..], z);
      assert Scale(c, f)[1..] == Scale(c, f[1..]);
      var a := Eval(f[1..], z);
      MulSwap(z, c, a);
      MulAdd(c, f[0], Mul(z, a));
    }
  }

  lemma {:induction false} EvalPadded(f: Poly, z: Elt)
    ensures Eval(f + [Zero], z) == Eval(f, z)
  {
    if f == [] {
      MulZero(z, Zero);
      AddZero(Zero);
    } else {
      EvalPadded(f[1..], z);
      assert (f + [Zero])[1..] == f[1..] + [Zero];
    }
  }

  lemma EvalShifted(f: Poly, z: Elt)
    ensures Eval([Zero] + f, z) == Mul(z, Eval(f, z))
  {
    assert ([Zero] + f)[1..] == f;
    AddZero(Mul(z, Eval(f, z)));
  }

  lemma {:induction false} EvalProduct(s: seq<Elt>, z: Elt)
    ensures Eval(Product(s), z) == Zero <==> z in s
  {
    if s == [] {
      assert Product(s)[1..] == [];
      MulZero(z, Zero);
      AddZero(One);
    } else {
      var g := Product(s[1..]);
      EvalProduct(s[1..], z);
      EvalPlus(Scale(s[0], g + [Zero]), [Zero] + g, z);
      EvalScale(s[0], g + [Zero], z);
      EvalPadded(g, z);
      EvalShifted(g, z);
      MulAddLeft(s[0], z, Eval(g, z));
      MulZero(Add(s[0], z), Eval(g, z));
      AddCancel(s[0], z);
    }
  }
}
