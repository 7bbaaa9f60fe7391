/**
 Decoding theory: errors es at locators xs leave the syndromes Syn(es, xs); a shortest
 recurrence for the syndromes has the inverse locators as its roots, and the error values
 follow from it by Forney's formula.
 */
module ReedSolomon {
  import opened Field
  import opened Polynomials
  import opened BerlekampMassey

  ghost function Pow(x: Elt, k: nat): Elt {
    if k == 0 then One else Mul(x, Pow(x, k - 1))
  }

  ghost function Dot(es: seq<Elt>, ws: seq<Elt>): Elt
    requires |es| == |ws|
  {
    if es == [] then Zero else Add(Mul(es[0], ws[0]), Dot(es[1..], ws[1..]))
  }

  /** x, x^2, ..., x^p. */
  ghost function Geo(x: Elt, p: nat): (s: seq<Elt>)
    ensures |s| == p
  {
    seq(p, j requires 0 <= j < p => Pow(x, j + 1))
  }

  /** The sum of e * Geo(x) over the errors e and their locators x. */
  ghost function Syn(es: seq<Elt>, xs: seq<Elt>, p: nat): (s: seq<Elt>)
    requires |es| == |xs|
    ensures |s| == p
  {
    if es == [] then seq(p, j => Zero)
    else Plus(Scale(es[0], Geo(xs[0], p)), Syn(es[1..], xs[1..], p))
  }

  ghost function Weight(es: seq<Elt>): nat {
    if es == [] then 0 else (if es[0] == Zero then 0 else 1) + Weight(es[1..])
  }

  ghost predicate Locators(xs: seq<Elt>) {
    Distinct(xs) && forall k :: 0 <= k < |xs| ==> xs[k] != Zero
  }

  // Dot products.

  lemma {:induction false} DotSingle(es: seq<Elt>, ws: seq<Elt>, m: nat)
    requires |es| == |ws| && m < |es|
    requires forall k :: 0 <= k < |es| && k != m ==> es[k] == Zero || ws[k] == Zero
    ensures Dot(es, ws) == Mul(es[m], ws[m])
  {
    MulZero(es[0], ws[0]);
    if m == 0 {
      DotZero(es[1..], ws[1..]);
      AddZero(Mul(es[0], ws[0]));
    } else {
      DotSingle(es[1..], ws[1..], m - 1);
      AddZero(Mul(es[m], ws[m]));
    }
  }

  lemma {:induction false} DotZero(es: seq<Elt>, ws: seq<Elt>)
    requires |es| == |ws|
    requires forall k :: 0 <= k < |es| ==> es[k] == Zero || ws[k] == Zero
    ensures Dot(es, ws) == Zero
  {
    if es != [] {
      MulZero(es[0], ws[0]);
      DotZero(es[1..], ws[1..]);
      AddZero(Zero);
    }
  }

  // Interpolation: weighted power sums determine the weights.

  ghost function Times(ws: seq<Elt>, us: seq<Elt>): (r: seq<Elt>)
    requires |ws| == |us|
    ensures |r| == |ws|
  {
    seq(|ws|, k requires 0 <= k < |ws| => Mul(ws[k], us[k]))
  }

  ghost function Pows(xs: seq<Elt>, t: nat): (r: seq<Elt>)
    ensures |r| == |xs|
  {
    seq(|xs|, k requires 0 <= k < |xs| => Pow(xs[k], t))
  }

  ghost function Evals(f: Poly, xs: seq<Elt>): (r: seq<Elt>)
    ensures |r| == |xs|
  {
    seq(|xs|, k requires 0 <= k < |xs| => Eval(f, xs[k]))
  }

  lemma {:induction false} DotTimes(ws: seq<Elt>, us: seq<Elt>, rs: seq<Elt>)
    requires |ws| == |us| == |rs|
    ensures Dot(Times(ws, us), rs) == Dot(ws, Times(us, rs))
  {
    if ws != [] {
      MulAssoc(ws[0], us[0], rs[0]);
      assert Times(ws, us)[1..] == Times(ws[1..], us[1..]);
      assert Times(us, rs)[1..] == Times(us[1..], rs[1..]);
      DotTimes(ws[1..], us[1..], rs[1..]);
    }
  }

  lemma {:induction false} DotAffine(ws: seq<Elt>, c: Elt, ones: seq<Elt>, us: seq<Elt>)
    requires |ws| == |us| == |ones|
    ensures Dot(ws, Plus(Scale(c, ones), us)) == Add(Mul(c, Dot(ws, ones)), Dot(ws, us))
  {
    var sum := Plus(Scale(c, ones), us);
    if ws == [] {
      MulZero(c, Zero);
      AddZero(Zero);
    } else {
      assert sum[1..] == Plus(Scale(c, ones[1..]), us[1..]);
      DotAffine(ws[1..], c, ones[1..], us[1..]);
      var a, b := Dot(ws[1..], ones[1..]), Dot(ws[1..], us[1..]);
      MulAdd(ws[0], Mul(c, ones[0]), us[0]);
      MulSwap(ws[0], c, ones[0]);
      AddFour(Mul(c, Mul(ws[0], ones[0])), Mul(ws[0], us[0]), Mul(c, a), b);
      MulAdd(c, Mul(ws[0], ones[0]), a);
    }
  }

  ghost predicate PowerSumsVanish(ws: seq<Elt>, xs: seq<Elt>, v: nat)
    requires |ws| == |xs|
  {
    forall t: nat :: t < v ==> Dot(ws, Pows(xs, t)) == Zero
  }

  lemma PowerSumsShift(ws: seq<Elt>, xs: seq<Elt>, v: nat)
    requires |ws| == |xs| && 0 < v && PowerSumsVanish(ws, xs, v)
    ensures PowerSumsVanish(Times(ws, xs), xs, v - 1)
  {
    forall t: nat | t < v - 1
      ensures Dot(Times(ws, xs), Pows(xs, t)) == Zero
    {
      DotTimes(ws, xs, Pows(xs, t));
      assert Times(xs, Pows(xs, t)) == Pows(xs, t + 1);
    }
  }

  lemma {:induction false} PolynomialSumVanishes(ws: seq<Elt>, xs: seq<Elt>, v: nat, f: Poly)
    requires |ws| == |xs| && PowerSumsVanish(ws, xs, v) && |f| <= v
    ensures Dot(ws, Evals(f, xs)) == Zero
    decreases |f|
  {
    if f == [] {
      DotZero(ws, Evals(f, xs));
    } else {
      PowerSumsShift(ws, xs, v);
      PolynomialSumVanishes(Times(ws, xs), xs, v - 1, f[1..]);
      var us := Times(xs, Evals(f[1..], xs));
      DotTimes(ws, xs, Evals(f[1..], xs));
      forall k | 0 <= k < |xs|
        ensures Evals(f, xs)[k] == Plus(Scale(f[0], Pows(xs, 0)), us)[k]
      {
        MulOne(f[0]);
      }
      assert Evals(f, xs) == Plus(Scale(f[0], Pows(xs, 0)), us);
      DotAffine(ws, f[0], Pows(xs, 0), us);
      assert Dot(ws, Pows(xs, 0)) == Zero;
      MulZero(f[0], Zero);
      AddZero(Zero);
    }
  }

  /** The locators other than x that carry a nonzero weight. */
  ghost function Others(ws: seq<Elt>, xs: seq<Elt>, x: Elt): (r: seq<Elt>)
    requires |ws| == |xs|
    ensures |r| <= Weight(ws) && x !in r
    ensures forall k :: 0 <= k < |xs| && ws[k] != Zero && xs[k] != x ==> xs[k] in r
    ensures (exists k :: 0 <= k < |xs| && ws[k] != Zero && xs[k] == x) ==> |r| < Weight(ws)
  {
    if ws == [] then []
    else if ws[0] == Zero || xs[0] == x then Others(ws[1..], xs[1..], x)
    else [xs[0]] + Others(ws[1..], xs[1..], x)
  }

  /** At most v weights with v vanishing power sums are all zero. */
  lemma Interpolation(ws: seq<Elt>, xs: seq<Elt>, v: nat, m: nat)
    requires |ws| == |xs| && Distinct(xs) && Weight(ws) <= v && PowerSumsVanish(ws, xs, v) && m < |ws|
    ensures ws[m] == Zero
  {
    if ws[m] != Zero {
      var others := Others(ws, xs, xs[m]);
      var f := Product(others);
      PolynomialSumVanishes(ws, xs, v, f);
      forall k | 0 <= k < |ws| && k != m
        ensures ws[k] == Zero || Evals(f, xs)[k] == Zero
      {
        EvalProduct(others, xs[k]);
      }
      DotSingle(ws, Evals(f, xs), m);
      EvalProduct(others, xs[m]);
      MulZero(ws[m], Eval(f, xs[m]));
    }
  }

  // The product of a polynomial with the syndromes.

  lemma {:induction false} PowInverse(x: Elt, y: Elt, k: nat)
    requires Mul(x, y) == One
    ensures Mul(Pow(x, k), Pow(y, k)) == One
  {
    if k == 0 {
      MulOne(One);
    } else {
      var a, b := Pow(x, k - 1), Pow(y, k - 1);
      PowInverse(x, y, k - 1);
      MulAssoc(x, a, Mul(y, b));
      MulSwap(a, y, b);
      MulAssoc(x, y, Mul(a, b));
      MulOne(One);
      MulAssoc(x, a, Mul(y, b));
    }
  }

  lemma {:induction false} ConvGeo(f: Poly, x: Elt, y: Elt, p: nat, m: int)
    requires Mul(x, y) == One && |f| <= m + 1 && -1 <= m < p
    ensures Conv(f, Geo(x, p), m) == Mul(Pow(x, m + 1), Eval(f, y))
  {
    if f == [] || m < 0 {
      MulZero(Pow(x, m + 1), Zero);
    } else {
      ConvGeo(f[1..], x, y, p, m - 1);
      var e := Eval(f[1..], y);
      MulAdd(Pow(x, m + 1), f[0], Mul(y, e));
      MulComm(Pow(x, m + 1), f[0]);
      assert Mul(Pow(x, m + 1), Mul(y, e)) == Mul(Pow(x, m), e) by {
        MulComm(x, Pow(x, m));
        MulAssoc(Pow(x, m), x, Mul(y, e));
        MulAssoc(x, y, e);
        MulOne(e);
      }
    }
  }

  /** Conv of f with each of the geometric series of xs, at m. */
  ghost function GeoConvs(f: Poly, xs: seq<Elt>, p: nat, m: int): (r: seq<Elt>)
    requires m < p
    ensures |r| == |xs|
  {
    seq(|xs|, k requires 0 <= k < |xs| => Conv(f, Geo(xs[k], p), m))
  }

  lemma {:induction false} ConvSyn(f: Poly, es: seq<Elt>, xs: seq<Elt>, p: nat, m: int)
    requires |es| == |xs| && m < p
    ensures Conv(f, Syn(es, xs, p), m) == Dot(es, GeoConvs(f, xs, p, m))
  {
    if es == [] {
      ConvVanishes(f, Syn(es, xs, p), m);
    } else {
      ConvSyn(f, es[1..], xs[1..], p, m);
      var g := Geo(xs[0], p);
      ConvPlusRight(f, Scale(es[0], g), Syn(es[1..], xs[1..], p), m);
      ConvScaleRight(f, es[0], g, m);
      assert GeoConvs(f, xs, p, m)[1..] == GeoConvs(f, xs[1..], p, m);
    }
  }

  ghost predicate Inverses(xs: seq<Elt>, ys: seq<Elt>) {
    |ys| == |xs| && forall k :: 0 <= k < |xs| ==> Mul(xs[k], ys[k]) == One
  }

  // A recurrence for the syndromes has the inverse locators as roots.

  /** es[k] * xs[k]^(len+1) * f(ys[k]). */
  ghost function RootWeights(es: seq<Elt>, xs: seq<Elt>, ys: seq<Elt>, f: Poly, len: nat): (ws: seq<Elt>)
    requires |es| == |xs| == |ys|
    ensures |ws| == |es|
  {
    Times(es, Times(Pows(xs, len + 1), Evals(f, ys)))
  }

  lemma {:induction false} WeightOfTimes(es: seq<Elt>, us: seq<Elt>)
    requires |es| == |us|
    ensures Weight(Times(es, us)) <= Weight(es)
  {
    if es != [] {
      WeightOfTimes(es[1..], us[1..]);
      assert Times(es, us)[1..] == Times(es[1..], us[1..]);
      MulZero(es[0], us[0]);
    }
  }

  lemma {:induction false} PowPlus(x: Elt, i: nat, j: nat)
    ensures Mul(Pow(x, i), Pow(x, j)) == Pow(x, i + j)
  {
    if i == 0 {
      MulOne(Pow(x, j));
    } else {
      PowPlus(x, i - 1, j);
      MulAssoc(x, Pow(x, i - 1), Pow(x, j));
    }
  }

  lemma RootWeightsSums(es: seq<Elt>, xs: seq<Elt>, ys: seq<Elt>, p: nat, f: Poly, len: nat, t: nat)
    requires |es| == |xs| && Inverses(xs, ys) && |f| <= len + 1 && len + t < p
    ensures Dot(RootWeights(es, xs, ys, f, len), Pows(xs, t)) == Conv(f, Syn(es, xs, p), len + t)
  {
    var us := Times(Pows(xs, len + 1), Evals(f, ys));
    DotTimes(es, us, Pows(xs, t));
    forall k | 0 <= k < |xs|
      ensures Times(us, Pows(xs, t))[k] == GeoConvs(f, xs, p, len + t)[k]
    {
      var x, e := xs[k], Eval(f, ys[k]);
      ConvGeo(f, x, ys[k], p, len + t);
      MulComm(Mul(Pow(x, len + 1), e), Pow(x, t));
      MulAssoc(Pow(x, t), Pow(x, len + 1), e);
      PowPlus(x, t, len + 1);
    }
    assert Times(us, Pows(xs, t)) == GeoConvs(f, xs, p, len + t);
    ConvSyn(f, es, xs, p, len + t);
  }

  lemma RecurrenceRoots(es: seq<Elt>, xs: seq<Elt>, ys: seq<Elt>, p: nat, f: Poly, len: nat, k: nat)
    requires |es| == |xs| && Locators(xs) && Inverses(xs, ys) && k < |es| && es[k] != Zero
    requires Generates(f, len, Syn(es, xs, p), p) && Weight(es) + len <= p
    ensures Eval(f, ys[k]) == Zero
  {
    var ws := RootWeights(es, xs, ys, f, len);
    forall t: nat | t < p - len
      ensures Dot(ws, Pows(xs, t)) == Zero
    {
      RootWeightsSums(es, xs, ys, p, f, len, t);
    }
    WeightOfTimes(es, Times(Pows(xs, len + 1), Evals(f, ys)));
    Interpolation(ws, xs, p - len, k);
    MulZero(es[k], Mul(Pow(xs[k], len + 1), Eval(f, ys[k])));
    MulZero(Pow(xs[k], len + 1), Eval(f, ys[k]));
    PowInverse(xs[k], ys[k], len + 1);
    MulZero(Pow(xs[k], len + 1), Pow(ys[k], len + 1));
  }

  /** The roots that the error locator polynomial must have. */
  ghost function ErrorRoots(es: seq<Elt>, ys: seq<Elt>): (r: seq<Elt>)
    requires |es| == |ys|
    ensures |r| == Weight(es)
    ensures forall z :: z in r <==> exists k :: 0 <= k < |es| && es[k] != Zero && ys[k] == z
  {
    if es == [] then []
    else if es[0] == Zero then ErrorRoots(es[1..], ys[1..])
    else [ys[0]] + ErrorRoots(es[1..], ys[1..])
  }

  /** The error locator polynomial is a recurrence as long as there are errors. */
  lemma LocatorGenerates(es: seq<Elt>, xs: seq<Elt>, ys: seq<Elt>, p: nat)
    returns (c: Poly)
    requires |es| == |xs| && Inverses(xs, ys) && Weight(es) <= p
    ensures Generates(c, Weight(es), Syn(es, xs, p), p)
  {
    var roots := ErrorRoots(es, ys);
    var f := Product(roots);
    forall k | 0 <= k < |ys|
      ensures ys[k] != Zero
    {
      MulZero(xs[k], ys[k]);
      OneIsNotZero();
    }
    EvalProduct(roots, Zero);
    MulZero(Zero, Eval(f[1..], Zero));
    AddZero(f[0]);
    c := Scale(Inv(f[0]), f);
    MulComm(Inv(f[0]), f[0]);
    forall m | Weight(es) <= m < p
      ensures Conv(c, Syn(es, xs, p), m) == Zero
    {
      ConvSyn(c, es, xs, p, m);
      forall k | 0 <= k < |es|
        ensures es[k] == Zero || GeoConvs(c, xs, p, m)[k] == Zero
      {
        ConvGeo(c, xs[k], ys[k], p, m);
        EvalScale(Inv(f[0]), f, ys[k]);
        EvalProduct(roots, ys[k]);
        MulZero(Inv(f[0]), Zero);
        MulZero(Pow(xs[k], m + 1), Zero);
      }
      DotZero(es, GeoConvs(c, xs, p, m));
    }
  }

  lemma OneIsNotZero()
    ensures One != Zero
  {}

  lemma InversesDistinct(xs: seq<Elt>, ys: seq<Elt>)
    requires Distinct(xs) && Inverses(xs, ys)
    ensures Distinct(ys)
  {
    forall i, j | 0 <= i < j < |ys|
      ensures ys[i] != ys[j]
    {
      if ys[i] == ys[j] {
        MulAssoc(xs[i], ys[j], xs[j]);
        MulComm(ys[j], xs[j]);
        MulOne(xs[i]);
        MulOne(xs[j]);
      }
    }
  }

  lemma {:induction false} ErrorRootsDistinct(es: seq<Elt>, ys: seq<Elt>)
    requires |es| == |ys| && Distinct(ys)
    ensures Distinct(ErrorRoots(es, ys))
  {
    if es != [] {
      var rest := ErrorRoots(es[1..], ys[1..]);
      ErrorRootsDistinct(es[1..], ys[1..]);
      assert ys[0] !in rest;
    }
  }

  /** The locator polynomial that the decoder computes from the syndromes s. */
  ghost function Locator(s: seq<Elt>, width: nat): Poly
    requires |s| < width
  {
    var st := Run(s, |s|, width);
    st.psi[..st.len + 1]
  }

  lemma LocatorIsShort(es: seq<Elt>, xs: seq<Elt>, ys: seq<Elt>, p: nat, width: nat)
    requires |es| == |xs| && Inverses(xs, ys) && Weight(es) <= p < width
    ensures var f := Locator(Syn(es, xs, p), width);
      && 1 <= |f| <= Weight(es) + 1
      && Generates(f, |f| - 1, Syn(es, xs, p), p)
  {
    ShortestRecurrence(Syn(es, xs, p), p, width);
    var c := LocatorGenerates(es, xs, ys, p);
  }

  lemma LocatorHasRoots(es: seq<Elt>, xs: seq<Elt>, ys: seq<Elt>, p: nat, width: nat)
    requires |es| == |xs| && Locators(xs) && Inverses(xs, ys) && 2 * Weight(es) <= p < width
    ensures AreRoots(Locator(Syn(es, xs, p), width), ErrorRoots(es, ys))
  {
    var f := Locator(Syn(es, xs, p), width);
    LocatorIsShort(es, xs, ys, p, width);
    var roots := ErrorRoots(es, ys);
    forall z | z in roots
      ensures Eval(f, z) == Zero
    {
      var k :| 0 <= k < |es| && es[k] != Zero && ys[k] == z;
      RecurrenceRoots(es, xs, ys, p, f, |f| - 1, k);
    }
  }

  /** f has the inverse error locators as its roots, and no others, and they are simple. */
  ghost predicate Locates(f: Poly, es: seq<Elt>, ys: seq<Elt>)
    requires |es| == |ys|
  {
    && 1 <= |f| <= Weight(es) + 1 && f[0] == One
    && forall z :: (Eval(f, z) == Zero <==> z in ErrorRoots(es, ys))
                && (z in ErrorRoots(es, ys) ==> Deriv(f, z) != Zero)
  }

  /** With at most p/2 errors the decoder's locator polynomial finds all of them. */
  lemma LocatorLocates(es: seq<Elt>, xs: seq<Elt>, ys: seq<Elt>, p: nat, width: nat)
    requires |es| == |xs| && Locators(xs) && Inverses(xs, ys) && 2 * Weight(es) <= p < width
    ensures Locates(Locator(Syn(es, xs, p), width), es, ys)
  {
    var f := Locator(Syn(es, xs, p), width);
    LocatorIsShort(es, xs, ys, p, width);
    LocatorHasRoots(es, xs, ys, p, width);
    InversesDistinct(xs, ys);
    ErrorRootsDistinct(es, ys);
    OneIsNotZero();
    forall z
      ensures Eval(f, z) == Zero <==> z in ErrorRoots(es, ys)
      ensures z in ErrorRoots(es, ys) ==> Deriv(f, z) != Zero
    {
      AllRoots(f, ErrorRoots(es, ys), z);
    }
  }

  // Forney's formula.

  lemma {:induction false} EvalSplit(f: Poly, j: nat, y: Elt)
    requires j <= |f|
    ensures Eval(f, y) == Add(Eval(f[..j], y), Mul(Pow(y, j), Eval(f[j..], y)))
  {
    if j == 0 {
      MulOne(Eval(f, y));
      AddZero(Eval(f, y));
      assert f[0..] == f;
    } else {
      EvalSplit(f[1..], j - 1, y);
      assert f[1..][..j - 1] == f[..j][1..];
      assert f[1..][j - 1..] == f[j..];
      var a, b := Eval(f[..j][1..], y), Eval(f[j..], y);
      MulAdd(y, a, Mul(Pow(y, j - 1), b));
      MulAssoc(y, Pow(y, j - 1), b);
      AddAssoc(f[0], Mul(y, a), Mul(Pow(y, j), b));
    }
  }

  lemma {:induction false} ConvPrefix(f: Poly, j: nat, s: seq<Elt>, m: int)
    requires m < |s| && m < j <= |f|
    ensures Conv(f, s, m) == Conv(f[..j], s, m)
  {
    if m >= 0 {
      ConvPrefix(f[1..], j - 1, s, m - 1);
      assert f[1..][..j - 1] == f[..j][1..];
    }
  }

  /** At a root, the product with a geometric series is the quotient by the root's factor. */
  lemma ConvGeoQuotient(f: Poly, x: Elt, y: Elt, p: nat, i: nat)
    requires Mul(x, y) == One && Eval(f, y) == Zero && i < p
    ensures Conv(f, Geo(x, p), i) == if i < |Quot(f, y)| then Quot(f, y)[i] else Zero
  {
    if i + 1 < |f| {
      var j := i + 1;
      QuotAt(f, y, i);
      ConvPrefix(f, j, Geo(x, p), i);
      ConvGeo(f[..j], x, y, p, i);
      EvalSplit(f, j, y);
      var a, q := Eval(f[..j], y), Eval(f[j..], y);
      AddCancel(a, Mul(Pow(y, j), q));
      PowInverse(x, y, j);
      MulAssoc(Pow(x, j), Pow(y, j), q);
      MulOne(q);
    } else {
      ConvGeo(f, x, y, p, i);
      MulZero(Pow(x, i + 1), Zero);
    }
  }

  lemma {:induction false} EvalExtended(f: Poly, g: Poly, z: Elt)
    requires |f| <= |g|
    requires forall i :: 0 <= i < |g| ==> g[i] == if i < |f| then f[i] else Zero
    ensures Eval(g, z) == Eval(f, z)
  {
    if f == [] {
      EvalOfZero(g, z);
    } else {
      EvalExtended(f[1..], g[1..], z);
    }
  }

  /** The error evaluator for each single locator, at z. */
  ghost function Evaluators(f: Poly, xs: seq<Elt>, p: nat, z: Elt): (r: seq<Elt>)
    ensures |r| == |xs|
  {
    seq(|xs|, k requires 0 <= k < |xs| => Eval(ConvAll(f, Geo(xs[k], p)), z))
  }

  lemma {:induction false} EvaluatorSum(f: Poly, es: seq<Elt>, xs: seq<Elt>, p: nat, z: Elt)
    requires |es| == |xs|
    ensures Eval(ConvAll(f, Syn(es, xs, p)), z) == Dot(es, Evaluators(f, xs, p, z))
  {
    var s := Syn(es, xs, p);
    if es == [] {
      forall m | 0 <= m < p
        ensures ConvAll(f, s)[m] == Zero
      {
        ConvVanishes(f, s, m);
      }
      EvalOfZero(ConvAll(f, s), z);
    } else {
      var g, rest := Geo(xs[0], p), Syn(es[1..], xs[1..], p);
      EvaluatorSum(f, es[1..], xs[1..], p, z);
      ConvAllSum(f, es[0], g, rest);
      EvalPlus(Scale(es[0], ConvAll(f, g)), ConvAll(f, rest), z);
      EvalScale(es[0], ConvAll(f, g), z);
      assert Evaluators(f, xs, p, z)[1..] == Evaluators(f, xs[1..], p, z);
    }
  }

  lemma ConvAllSum(f: Poly, c: Elt, s: seq<Elt>, t: seq<Elt>)
    requires |s| == |t|
    ensures ConvAll(f, Plus(Scale(c, s), t)) == Plus(Scale(c, ConvAll(f, s)), ConvAll(f, t))
  {
    var sum := Plus(Scale(c, ConvAll(f, s)), ConvAll(f, t));
    forall m | 0 <= m < |s|
      ensures ConvAll(f, Plus(Scale(c, s), t))[m] == sum[m]
    {
      ConvPlusRight(f, Scale(c, s), t, m);
      ConvScaleRight(f, c, s, m);
    }
  }

  /** The evaluator at the root of an error is the error value times the derivative there, and zero where there is no
      error. */
  lemma Forney(f: Poly, es: seq<Elt>, xs: seq<Elt>, ys: seq<Elt>, p: nat, m: nat)
    requires |es| == |xs| && Distinct(xs) && Inverses(xs, ys) && m < |es| && |f| <= p + 1
    requires forall k :: 0 <= k < |es| && es[k] != Zero ==> Eval(f, ys[k]) == Zero
    requires Eval(f, ys[m]) == Zero
    ensures Eval(ConvAll(f, Syn(es, xs, p)), ys[m]) == Mul(es[m], Deriv(f, ys[m]))
  {
    var z := ys[m];
    var vs := Evaluators(f, xs, p, z);
    EvaluatorSum(f, es, xs, p, z);
    InversesDistinct(xs, ys);
    forall k | 0 <= k < |es| && es[k] != Zero
      ensures vs[k] == Eval(Quot(f, ys[k]), z)
      ensures k != m ==> vs[k] == Zero
    {
      var g := ConvAll(f, Geo(xs[k], p));
      forall i | 0 <= i < p
        ensures g[i] == if i < |Quot(f, ys[k])| then Quot(f, ys[k])[i] else Zero
      {
        ConvGeoQuotient(f, xs[k], ys[k], p, i);
      }
      EvalExtended(Quot(f, ys[k]), g, z);
      if k != m {
        QuotientRoot(f, ys[k], z);
      }
    }
    DotSingle(es, vs, m);
    DerivIsQuotient(f, z);
    MulZero(es[m], vs[m]);
    MulZero(es[m], Deriv(f, z));
  }
}
