/** What the decoder does with a word that is too far from every codeword. */
module FecBeyond {
  import opened Field
  import opened Polynomials
  import opened BerlekampMassey
  import opened ReedSolomon
  import opened FecSpec

  // A recurrence with all its roots and the error values it gives determine the series.

  lemma {:induction false} SeriesVanishes(f: Poly, d: seq<Elt>, m: nat)
    requires f != [] && f[0] == One && m < |d| && forall i :: 0 <= i <= m ==> Conv(f, d, i) == Zero
    ensures d[m] == Zero
  {
    forall i | 0 <= i < m
      ensures d[i] == Zero
    {
      SeriesVanishes(f, d, i);
    }
    ConvVanishes(f[1..], d, m - 1);
    assert Conv(f, d, m) == Add(Mul(One, d[m]), Zero);
    MulOne(d[m]);
    AddZero(d[m]);
  }

  lemma SameSeries(f: Poly, s: seq<Elt>, t: seq<Elt>)
    requires f != [] && f[0] == One && |s| == |t|
    requires forall m :: 0 <= m < |s| ==> Conv(f, s, m) == Conv(f, t, m)
    ensures s == t
  {
    var d := Plus(s, t);
    forall m | 0 <= m < |s|
      ensures Conv(f, d, m) == Zero
    {
      ConvPlusRight(f, s, t, m);
      AddZero(Conv(f, s, m));
    }
    forall m | 0 <= m < |s|
      ensures s[m] == t[m]
    {
      SeriesVanishes(f, d, m);
      AddCancel(s[m], t[m]);
    }
  }

  /** Beyond its degree a polynomial with the roots of the errors annihilates their syndromes. */
  lemma EvaluatorEnds(f: Poly, es: seq<Elt>, xs: seq<Elt>, ys: seq<Elt>, p: nat, m: nat)
    requires |es| == |xs| && Inverses(xs, ys) && |f| <= m + 1 && m < p
    requires forall k :: 0 <= k < |es| && es[k] != Zero ==> Eval(f, ys[k]) == Zero
    ensures Conv(f, Syn(es, xs, p), m) == Zero
  {
    ConvSyn(f, es, xs, p, m);
    forall k | 0 <= k < |es|
      ensures es[k] == Zero || GeoConvs(f, xs, p, m)[k] == Zero
    {
      if es[k] != Zero {
        ConvGeoQuotient(f, xs[k], ys[k], p, m);
      }
    }
    DotZero(es, GeoConvs(f, xs, p, m));
  }

  /** The errors es have the values that f and the syndromes s give at the places ks, which are all the roots of f. */
  ghost predicate Valued(f: Poly, s: seq<Elt>, es: seq<Elt>, ys: seq<Elt>, ks: seq<nat>)
    requires |es| == |ys|
  {
    && |f| == |ks| + 1 && (forall i, j :: 0 <= i < j < |ks| ==> ks[i] != ks[j])
    && (forall k :: 0 <= k < |es| && es[k] != Zero ==> Eval(f, ys[k]) == Zero)
    && forall i :: 0 <= i < |ks| ==>
         && ks[i] < |es| && Eval(f, ys[ks[i]]) == Zero
         && Eval(ConvAll(f, s), ys[ks[i]]) == Mul(es[ks[i]], Deriv(f, ys[ks[i]]))
  }

  /** At each of the roots the two evaluators agree. */
  lemma EvaluatorsMeet(f: Poly, s: seq<Elt>, es: seq<Elt>, xs: seq<Elt>, ys: seq<Elt>, ks: seq<nat>, i: nat)
    requires |es| == |xs| && Locators(xs) && Inverses(xs, ys) && Valued(f, s, es, ys, ks) && i < |ks|
    requires |f| <= |s| + 1
    ensures Eval(Plus(ConvAll(f, s), ConvAll(f, Syn(es, xs, |s|))), ys[ks[i]]) == Zero
  {
    var z := ys[ks[i]];
    EvalPlus(ConvAll(f, s), ConvAll(f, Syn(es, xs, |s|)), z);
    Forney(f, es, xs, ys, |s|, ks[i]);
    AddZero(Eval(ConvAll(f, s), z));
  }

  /** A polynomial that ends before it has more coefficients than roots is zero. */
  lemma EndsBeforeRoots(g: Poly, roots: seq<Elt>)
    requires Distinct(roots) && AreRoots(g, roots)
    requires forall m :: |roots| <= m < |g| ==> g[m] == Zero
    ensures IsZero(g)
  {
    if |roots| < |g| {
      var low := g[..|roots|];
      forall z | z in roots
        ensures Eval(low, z) == Zero
      {
        EvalExtended(low, g, z);
      }
      RootBound(low, roots);
      assert forall m :: 0 <= m < |g| ==> g[m] == if m < |low| then low[m] else Zero;
    } else {
      RootBound(g, roots);
    }
  }

  ghost function At(ys: seq<Elt>, ks: seq<nat>): (roots: seq<Elt>)
    requires forall i :: 0 <= i < |ks| ==> ks[i] < |ys|
    ensures |roots| == |ks| && forall i :: 0 <= i < |ks| ==> roots[i] == ys[ks[i]]
  {
    seq(|ks|, i requires 0 <= i < |ks| => ys[ks[i]])
  }

  lemma SumEnds(f: Poly, s: seq<Elt>, es: seq<Elt>, xs: seq<Elt>, ys: seq<Elt>, m: nat)
    requires |es| == |xs| && Inverses(xs, ys) && |f| <= m + 1 && m < |s|
    requires forall k :: 0 <= k < |es| && es[k] != Zero ==> Eval(f, ys[k]) == Zero
    requires f != [] && Generates(f, |f| - 1, s, |s|)
    ensures Plus(ConvAll(f, s), ConvAll(f, Syn(es, xs, |s|)))[m] == Zero
  {
    EvaluatorEnds(f, es, xs, ys, |s|, m);
    AddZero(Zero);
  }

  /** So they agree everywhere: both end at the degree of f. */
  lemma EvaluatorsAgree(f: Poly, s: seq<Elt>, es: seq<Elt>, xs: seq<Elt>, ys: seq<Elt>, ks: seq<nat>)
    requires |es| == |xs| && Locators(xs) && Inverses(xs, ys) && Valued(f, s, es, ys, ks)
    requires Generates(f, |f| - 1, s, |s|) && |f| <= |s| + 1
    ensures IsZero(Plus(ConvAll(f, s), ConvAll(f, Syn(es, xs, |s|))))
  {
    var sum := Plus(ConvAll(f, s), ConvAll(f, Syn(es, xs, |s|)));
    var roots := At(ys, ks);
    InversesDistinct(xs, ys);
    assert Distinct(roots);
    forall m | |roots| <= m < |sum|
      ensures sum[m] == Zero
    {
      SumEnds(f, s, es, xs, ys, m);
    }
    forall i | 0 <= i < |ks|
      ensures Eval(sum, roots[i]) == Zero
    {
      EvaluatorsMeet(f, s, es, xs, ys, ks, i);
    }
    EndsBeforeRoots(sum, roots);
  }

  lemma ValuesGiveSyndromes(f: Poly, s: seq<Elt>, es: seq<Elt>, xs: seq<Elt>, ys: seq<Elt>, ks: seq<nat>)
    requires |es| == |xs| && Locators(xs) && Inverses(xs, ys) && Valued(f, s, es, ys, ks)
    requires Generates(f, |f| - 1, s, |s|) && |f| <= |s| + 1
    ensures Syn(es, xs, |s|) == s
  {
    var t := Syn(es, xs, |s|);
    EvaluatorsAgree(f, s, es, xs, ys, ks);
    forall m | 0 <= m < |s|
      ensures Conv(f, s, m) == Conv(f, t, m)
    {
      assert Plus(ConvAll(f, s), ConvAll(f, t))[m] == Zero;
      AddCancel(Conv(f, s, m), Conv(f, t, m));
    }
    SameSeries(f, s, t);
  }

  // The corrected word.

  lemma LocatorShape(s: seq<Elt>)
    requires s != []
    ensures var f := Locator(s, 2 * |s|);
      && 1 <= |f| <= |s| + 1 && Generates(f, |f| - 1, s, |s|)
  {
    ShortestRecurrence(s, |s|, 2 * |s|);
  }

  /** The syndromes of two words differ by those of their difference. */
  lemma SyndromeDifference(word: seq<Elt>, r: seq<Elt>, p: nat, j: nat)
    requires |word| == |r| && j < p
    ensures Syn(Errors(word, r), LocatorsFrom(0, |word|), p)[j] == Add(Syndrome(word, j), Syndrome(r, j))
  {
    SynIsHorner(Plus(word, r), 0, p, j);
    HornerPlus(word, r, Alpha(j + 1));
    AlphaUnits();
    PowOfOne(j + 1);
    MulOne(Add(Syndrome(word, j), Syndrome(r, j)));
  }

  lemma CodewordIfSyndromes(word: seq<Elt>, r: seq<Elt>, p: nat)
    requires |word| == |r|
    ensures IsCodeword(r, p) <==> Syn(Errors(word, r), LocatorsFrom(0, |word|), p) == Syndromes(word, p)
  {
    var t, s := Syn(Errors(word, r), LocatorsFrom(0, |word|), p), Syndromes(word, p);
    forall j | 0 <= j < p
      ensures t[j] == s[j] <==> Syndrome(r, j) == Zero
    {
      SyndromeDifference(word, r, p, j);
      AddZero(s[j]);
      if t[j] == s[j] {
        AddCancelLeft(s[j], Syndrome(r, j));
      }
    }
    if IsCodeword(r, p) {
      assert forall j :: 0 <= j < p ==> t[j] == s[j];
    } else {
      var j :| 0 <= j < p && Syndrome(r, j) != Zero;
      assert t[j] != s[j];
    }
  }

  lemma AddCancelLeft(a: Elt, b: Elt)
    requires Add(a, b) == a
    ensures b == Zero
  {
    AddAssoc(a, a, b);
    AddZero(a);
    AddZero(b);
  }

  /** The error that correction assumes at a location. */
  lemma ErrorOfCorrection(word: seq<Elt>, f: Poly, s: seq<Elt>, locs: seq<nat>, l: nat)
    requires AllBelow(locs, |word|) && AllBelow(locs, 255) && l < |word|
    requires forall i, j :: 0 <= i < j < |locs| ==> locs[i] > locs[j]
    ensures Errors(word, Corrected(word, f, s, locs))[l] == if l in locs then ErrorValue(f, s, l) else Zero
  {
    CorrectedAt(word, f, s, locs, |locs|, l);
    assert locs[..|locs|] == locs;
    var w := word[|word| - 1 - l];
    AddZero(w);
    AddCancel(w, Corrected(word, f, s, locs)[|word| - 1 - l]);
    if l in locs {
      AddCancel(w, ErrorValue(f, s, l));
    }
  }

  /** At a simple root the value times the derivative is the evaluator. */
  lemma ValueAtRoot(f: Poly, s: seq<Elt>, l: nat)
    requires l < 255 && Deriv(f, Alpha(255 - l)) != Zero
    ensures Eval(ConvAll(f, s), Alpha(255 - l)) == Mul(ErrorValue(f, s, l), Deriv(f, Alpha(255 - l)))
  {
    var d, e := Deriv(f, Alpha(255 - l)), Eval(ConvAll(f, s), Alpha(255 - l));
    MulAssoc(e, Inv(d), d);
    MulComm(Inv(d), d);
    MulOne(e);
  }

  ghost function RootsAt(locs: seq<nat>): (roots: seq<Elt>)
    requires AllBelow(locs, 255)
    ensures |roots| == |locs| && forall i :: 0 <= i < |locs| ==> roots[i] == Alpha(255 - locs[i])
  {
    seq(|locs|, i requires 0 <= i < |locs| => Alpha(255 - locs[i]))
  }

  lemma RootsAtDistinct(locs: seq<nat>)
    requires AllBelow(locs, 255) && forall i, j :: 0 <= i < j < |locs| ==> locs[i] > locs[j]
    ensures Distinct(RootsAt(locs))
  {
    var roots := RootsAt(locs);
    forall i, j | 0 <= i < j < |roots|
      ensures roots[i] != roots[j]
    {
      if roots[i] == roots[j] {
        RootsDistinct(locs[i], locs[j]);
      }
    }
  }

  lemma LocationsAreRoots(f: Poly, locs: seq<nat>)
    requires locs == Locations(f, 255)
    ensures AreRoots(f, RootsAt(locs))
  {
    forall i | 0 <= i < |locs|
      ensures Eval(f, RootsAt(locs)[i]) == Zero
    {
      assert IsLocation(f, locs[i]);
    }
  }

  /** As many locations as the degree of f are all its roots, and simple. */
  lemma AllLocationsSimple(f: Poly, locs: seq<nat>, i: nat)
    requires f != [] && f[0] == One && locs == Locations(f, 255) && |f| == |locs| + 1 && i < |locs|
    ensures Deriv(f, Alpha(255 - locs[i])) != Zero
  {
    var roots := RootsAt(locs);
    RootsAtDistinct(locs);
    LocationsAreRoots(f, locs);
    OneIsNotZero();
    assert roots[i] in roots;
    AllRoots(f, roots, roots[i]);
  }

  ghost predicate ErrorsAt(f: Poly, s: seq<Elt>, locs: seq<nat>, es: seq<Elt>) {
    |es| <= 255 && forall l: nat :: l < |es| ==> es[l] == if l in locs then ErrorValue(f, s, l) else Zero
  }

  lemma CorrectionErrors(word: seq<Elt>, f: Poly, s: seq<Elt>, locs: seq<nat>)
    requires |word| <= 255 && AllBelow(locs, |word|) && AllBelow(locs, 255)
    requires forall i, j :: 0 <= i < j < |locs| ==> locs[i] > locs[j]
    ensures ErrorsAt(f, s, locs, Errors(word, Corrected(word, f, s, locs)))
  {
    forall l: nat | l < |word|
      ensures Errors(word, Corrected(word, f, s, locs))[l] == if l in locs then ErrorValue(f, s, l) else Zero
    {
      ErrorOfCorrection(word, f, s, locs, l);
    }
  }

  lemma ValuedAt(f: Poly, s: seq<Elt>, locs: seq<nat>, es: seq<Elt>, i: nat)
    requires f != [] && f[0] == One && locs == Locations(f, 255) && |f| == |locs| + 1 && i < |locs| && locs[i] < |es|
    requires ErrorsAt(f, s, locs, es)
    ensures Eval(f, Roots(|es|)[locs[i]]) == Zero
    ensures Eval(ConvAll(f, s), Roots(|es|)[locs[i]]) == Mul(es[locs[i]], Deriv(f, Roots(|es|)[locs[i]]))
  {
    assert IsLocation(f, locs[i]) && locs[i] in locs;
    AllLocationsSimple(f, locs, i);
    ValueAtRoot(f, s, locs[i]);
  }

  lemma OnlyAtRoots(f: Poly, s: seq<Elt>, locs: seq<nat>, es: seq<Elt>, k: nat)
    requires locs == Locations(f, 255) && ErrorsAt(f, s, locs, es) && k < |es| && es[k] != Zero
    ensures Eval(f, Roots(|es|)[k]) == Zero
  {
    var i :| 0 <= i < |locs| && locs[i] == k;
    assert IsLocation(f, locs[i]);
  }

  lemma CorrectionIsValued(f: Poly, s: seq<Elt>, locs: seq<nat>, es: seq<Elt>)
    requires f != [] && f[0] == One && locs == Locations(f, 255) && |f| == |locs| + 1 && AllBelow(locs, |es|)
    requires ErrorsAt(f, s, locs, es)
    ensures Valued(f, s, es, Roots(|es|), locs)
  {
    forall k | 0 <= k < |es| && es[k] != Zero
      ensures Eval(f, Roots(|es|)[k]) == Zero
    {
      OnlyAtRoots(f, s, locs, es, k);
    }
    forall i | 0 <= i < |locs|
      ensures Eval(f, Roots(|es|)[locs[i]]) == Zero
      ensures Eval(ConvAll(f, s), Roots(|es|)[locs[i]]) == Mul(es[locs[i]], Deriv(f, Roots(|es|)[locs[i]]))
    {
      ValuedAt(f, s, locs, es, i);
    }
  }

  /** If the locator has all its roots among the locations, what correction gives is a codeword. */
  lemma AllRootsGiveCodeword(word: seq<Elt>, s: seq<Elt>, f: Poly, locs: seq<nat>)
    requires |word| <= 255 && s == Syndromes(word, |s|)
    requires f != [] && Generates(f, |f| - 1, s, |s|) && |f| <= |s| + 1
    requires locs == Locations(f, 255) && AllBelow(locs, |word|) && |f| == |locs| + 1
    ensures IsCodeword(Corrected(word, f, s, locs), |s|)
  {
    var n, r := |word|, Corrected(word, f, s, locs);
    LocatorsAreLocators(n);
    CorrectionErrors(word, f, s, locs);
    CorrectionIsValued(f, s, locs, Errors(word, r));
    ValuesGiveSyndromes(f, s, Errors(word, r), LocatorsFrom(0, n), Roots(n), locs);
    CodewordIfSyndromes(word, r, |s|);
  }

  lemma DistinctFits(a: seq<Elt>, b: seq<Elt>)
    requires Distinct(a) && forall z <- a :: z in b
    ensures |a| <= |b|
  {
    var all := set z | z in b;
    CardinalityOf(b, all);
    DistinctCardinality(a, all);
  }

  lemma {:induction false} CardinalityOf(b: seq<Elt>, all: set<Elt>)
    requires forall z <- all :: z in b
    ensures |all| <= |b|
  {
    if b != [] {
      CardinalityOf(b[1..], all - {b[0]});
    } else {
      assert all == {};
    }
  }

  lemma {:induction false} DistinctCardinality(a: seq<Elt>, all: set<Elt>)
    requires Distinct(a) && forall z <- a :: z in all
    ensures |a| <= |all|
  {
    if a != [] {
      forall z | z in a[1..]
        ensures z in all - {a[0]}
      {
      }
      DistinctCardinality(a[1..], all - {a[0]});
    }
  }

  /** Only the bytes at these locations are wrong. */
  ghost predicate WrongAt(es: seq<Elt>, locs: seq<nat>) {
    forall k: nat :: k < |es| && es[k] != Zero ==> k in locs
  }

  lemma RootIsLocated(locs: seq<nat>, k: nat)
    requires AllBelow(locs, 255) && k in locs
    ensures Alpha(255 - k) in RootsAt(locs)
  {
    var i :| 0 <= i < |locs| && locs[i] == k;
    assert RootsAt(locs)[i] == Alpha(255 - k);
  }

  lemma ErrorRootsLocated(locs: seq<nat>, es: seq<Elt>)
    requires |es| <= 255 && AllBelow(locs, 255) && WrongAt(es, locs)
    ensures forall z <- ErrorRoots(es, Roots(|es|)) :: z in RootsAt(locs)
  {
    forall z | z in ErrorRoots(es, Roots(|es|))
      ensures z in RootsAt(locs)
    {
      var k := WrongPlace(es, z);
      RootIsLocated(locs, k);
    }
  }

  lemma WrongPlace(es: seq<Elt>, z: Elt) returns (k: nat)
    requires |es| <= 255 && z in ErrorRoots(es, Roots(|es|))
    ensures k < |es| && es[k] != Zero && Alpha(255 - k) == z
  {
    k :| k < |es| && es[k] != Zero && Roots(|es|)[k] == z;
  }

  lemma DistinctRoots(es: seq<Elt>)
    requires |es| <= 255
    ensures Distinct(ErrorRoots(es, Roots(|es|)))
  {
    LocatorsAreLocators(|es|);
    InversesDistinct(LocatorsFrom(0, |es|), Roots(|es|));
    ErrorRootsDistinct(es, Roots(|es|));
  }

  lemma WeightAtMost(locs: seq<nat>, es: seq<Elt>)
    requires |es| <= 255 && AllBelow(locs, 255) && WrongAt(es, locs)
    ensures Weight(es) <= |locs|
  {
    ErrorRootsLocated(locs, es);
    DistinctRoots(es);
    DistinctFits(ErrorRoots(es, Roots(|es|)), RootsAt(locs));
  }

  /** If it is a codeword, the locator has all its roots among the locations, for it is a shortest recurrence. */
  lemma CodewordHasAllRoots(word: seq<Elt>, s: seq<Elt>, f: Poly, locs: seq<nat>)
    requires |word| <= 255 && s != [] && s == Syndromes(word, |s|) && f == Locator(s, 2 * |s|)
    requires locs == Locations(f, 255) && AllBelow(locs, |word|) && |locs| <= |s|
    requires IsCodeword(Corrected(word, f, s, locs), |s|)
    ensures |f| == |locs| + 1
  {
    var n, r := |word|, Corrected(word, f, s, locs);
    LocatorsAreLocators(n);
    LocatorShape(s);
    CodewordIfSyndromes(word, r, |s|);
    CorrectionErrors(word, f, s, locs);
    WeightAtMost(locs, Errors(word, r));
    LocatorIsShort(Errors(word, r), LocatorsFrom(0, n), Roots(n), |s|, 2 * |s|);
    LocationCount(f);
  }

  /** Whatever was received: if the decoder says that it corrected errors, the word it leaves is a codeword exactly if
      it found as many locations as its locator has taps. */
  lemma CorrectedIsCodeword(word: seq<Elt>, p: nat)
    requires |word| <= 255 && 1 <= p <= 8 && Decode(word, p).0 == CorrectedErrors
    ensures var f := Locator(Syndromes(word, p), 2 * p);
      IsCodeword(Decode(word, p).1, p) <==> |Located(f)| == |f| - 1
  {
    var s := Syndromes(word, p);
    var f := Locator(s, 2 * p);
    LocatorShape(s);
    LocationCount(f);
    var locs := Located(f);
    assert locs == Locations(f, 255);
    if |locs| == |f| - 1 {
      AllRootsGiveCodeword(word, s, f, locs);
    }
    if IsCodeword(Corrected(word, f, s, locs), p) {
      CodewordHasAllRoots(word, s, f, locs);
    }
  }

  // A word that is corrected to no codeword, with two parity bytes.

  /** The last two bytes are One and Alpha(1), and all others zero. */
  ghost function Far(n: nat): (word: seq<Elt>)
    requires n >= 2
    ensures |word| == n
  {
    seq(n - 2, _ => Zero) + [One, Alpha(1)]
  }

  lemma {:induction false} HornerOfZeros(n: nat, x: Elt)
    ensures Horner(seq(n, _ => Zero), x) == Zero
  {
    var zeros: seq<Elt> := seq(n, _ => Zero);
    if n > 0 {
      assert zeros[..n - 1] == seq(n - 1, _ => Zero);
      HornerOfZeros(n - 1, x);
      MulZero(x, Zero);
      AddZero(Zero);
    }
  }

  lemma FarAt(n: nat, x: Elt)
    requires n >= 2
    ensures Horner(Far(n), x) == Add(Alpha(1), x)
  {
    var word := Far(n);
    assert word[..n - 1][..n - 2] == seq(n - 2, _ => Zero) && word[..n - 1][n - 2] == One && word[n - 1] == Alpha(1);
    HornerOfZeros(n - 2, x);
    assert Horner(word[..n - 1], x) == Add(One, Mul(x, Zero));
    MulZero(x, Zero);
    AddZero(One);
    MulOne(x);
    assert Horner(word, x) == Add(Alpha(1), Mul(x, One));
  }

  // Its locator is 1 + c z^2, the square of a polynomial of degree one.

  lemma ConvOne(s: seq<Elt>, m: nat)
    requires m < |s|
    ensures Conv([One], s, m) == s[m]
  {
    assert [One][1..] == [];
    MulOne(s[m]);
    AddZero(s[m]);
  }

  /** The recurrence for a zero and then something else. */
  lemma LocatorOfTwo(c: Elt)
    requires c != Zero
    ensures Locator([Zero, c], 4) == [One, Zero, c]
  {
    var s := [Zero, c];
    var st0 := Init(4);
    assert st0.psi[..1] == [One];
    ConvOne(s, 0);
    assert Discrepancy(st0, s, 0) == Zero;
    var st1 := Step(st0, s, 0);
    assert st1 == State([One, Zero, Zero, Zero], [Zero, Zero, One, Zero], 0, -1);
    assert Run(s, 1, 4) == st1;
    assert st1.psi[..1] == [One];
    ConvOne(s, 1);
    assert Discrepancy(st1, s, 1) == c;
    MulZero(c, Zero);
    MulOne(c);
    AddZero(One);
    AddZero(Zero);
    AddZero(c);
    assert Plus(st1.psi, Scale(c, st1.d)) == [One, Zero, c, Zero];
    assert Step(st1, s, 1).psi == [One, Zero, c, Zero] && Step(st1, s, 1).len == 2;
    assert Run(s, 2, 4) == Step(st1, s, 1);
  }

  lemma SquareAt(c: Elt, y: Elt)
    ensures Eval([One, Zero, c], y) == Add(One, Mul(y, Mul(y, c))) && Deriv([One, Zero, c], y) == Zero
  {
    assert [One, Zero, c][1..] == [Zero, c] && [Zero, c][1..] == [c] && [c][1..] == [];
    MulZero(y, Zero);
    AddZero(c);
    AddZero(Zero);
    AddZero(Mul(y, c));
    assert Eval([c], y) == c;
    assert Eval([Zero, c], y) == Add(Zero, Mul(y, c));
    AddComm(Zero, Mul(y, c));
    assert Deriv([c], y) == Add(Zero, Mul(y, Zero));
    assert Deriv([Zero, c], y) == c;
    assert Deriv([One, Zero, c], y) == Add(Mul(y, c), Mul(y, c));
  }

  /** Every byte has a square root. */
  lemma SquareRoot(c: Elt) returns (r: nat)
    requires c != Zero
    ensures 1 <= r <= 255 && Mul(Alpha(r), Mul(Alpha(r), c)) == One
  {
    LogExists(c);
    var k: nat :| k < 255 && Alpha(k) == c;
    r := if k % 2 == 0 then (510 - k) / 2 else (255 - k) / 2;
    AlphaPlus(r, k);
    AlphaPlus(r, r + k);
    AlphaUnits();
    AlphaPlus(255, 255);
    MulOne(One);
    assert r + (r + k) == 510 || r + (r + k) == 255;
  }

  /** The locator has exactly one root, and it is not simple. */
  lemma OneRoot(c: Elt) returns (l: nat)
    requires c != Zero
    ensures l < 255 && Locations([One, Zero, c], 255) == [l]
  {
    var f: Poly := [One, Zero, c];
    var locs := Locations(f, 255);
    var r := SquareRoot(c);
    SquareAt(c, Alpha(r));
    AddZero(One);
    LocationsComplete(f, 255, 255 - r);
    LocationCount(f);
    if |locs| == 2 {
      AllLocationsSimple(f, locs, 0);
      SquareAt(c, Alpha(255 - locs[0]));
      assert false;
    }
    l := locs[0];
  }

  /** With two parity bytes, a word of full length whose first syndrome is zero and whose second is not counts as
      corrected, and is corrected to no codeword. */
  lemma CorrectedToNoCodeword(word: seq<Elt>)
    requires |word| == 255 && Syndrome(word, 0) == Zero && Syndrome(word, 1) != Zero
    ensures Decode(word, 2).0 == CorrectedErrors && !IsCodeword(Decode(word, 2).1, 2)
  {
    var c, s := Syndrome(word, 1), Syndromes(word, 2);
    assert s == [Zero, c];
    LocatorOfTwo(c);
    var l := OneRoot(c);
    assert Located(Locator(s, 4)) == [l];
    assert !IsCodeword(word, 2);
    CorrectedIsCodeword(word, 2);
  }

  /** There is such a word. */
  lemma FarIsSuch()
    ensures Syndrome(Far(255), 0) == Zero && Syndrome(Far(255), 1) != Zero
  {
    FarAt(255, Alpha(1));
    FarAt(255, Alpha(2));
    AddZero(Alpha(1));
    AlphaDistinct(1, 2);
    AddCancel(Alpha(1), Alpha(2));
  }
}
