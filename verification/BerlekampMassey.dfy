/**
 The Berlekamp-Massey algorithm of the decoder: a shortest linear recurrence for a sequence.
 A recurrence of length v is a polynomial c with c[0] = 1 and degree at most v; it generates
 s when every s[m] with m >= v is a combination of the v terms before it.
 */
module BerlekampMassey {
  import opened Field
  import opened Polynomials

  /** Coefficient m of the product of f and the series s. */
  ghost function Conv(f: Poly, s: seq<Elt>, m: int): Elt
    requires m < |s|
  {
    if f == [] || m < 0 then Zero else Add(Mul(f[0], s[m]), Conv(f[1..], s, m - 1))
  }

  /** All the coefficients of the product that the known part of s determines. */
  ghost function ConvAll(f: Poly, s: seq<Elt>): (t: seq<Elt>)
    ensures |t| == |s|
  {
    seq(|s|, m requires 0 <= m < |s| => Conv(f, s, m))
  }

  lemma {:induction false} ConvPlus(f: Poly, g: Poly, s: seq<Elt>, m: int)
    requires |f| == |g| && m < |s|
    ensures Conv(Plus(f, g), s, m) == Add(Conv(f, s, m), Conv(g, s, m))
  {
    if f == [] || m < 0 {
      AddZero(Zero);
    } else {
      ConvPlus(f[1..], g[1..], s, m - 1);
      assert Plus(f, g)[1..] == Plus(f[1..], g[1..]);
      MulAddLeft(f[0], g[0], s[m]);
      AddFour(Mul(f[0], s[m]), Mul(g[0], s[m]), Conv(f[1..], s, m - 1), Conv(g[1..], s, m - 1));
    }
  }

  lemma {:induction false} ConvScale(c: Elt, f: Poly, s: seq<Elt>, m: int)
    requires m < |s|
    ensures Conv(Scale(c, f), s, m) == Mul(c, Conv(f, s, m))
  {
    if f == [] || m < 0 {
      MulZero(c, Zero);
    } else {
      ConvScale(c, f[1..], s, m - 1);
      assert Scale(c, f)[1..] == Scale(c, f[1..]);
      MulAssoc(c, f[0], s[m]);
      MulAdd(c, Mul(f[0], s[m]), Conv(f[1..], s, m - 1));
    }
  }

  lemma {:induction false} ConvPlusRight(f: Poly, s: seq<Elt>, t: seq<Elt>, m: int)
    requires |s| == |t| && m < |s|
    ensures Conv(f, Plus(s, t), m) == Add(Conv(f, s, m), Conv(f, t, m))
  {
    if f == [] || m < 0 {
      AddZero(Zero);
    } else {
      ConvPlusRight(f[1..], s, t, m - 1);
      MulAdd(f[0], s[m], t[m]);
      AddFour(Mul(f[0], s[m]), Mul(f[0], t[m]), Conv(f[1..], s, m - 1), Conv(f[1..], t, m - 1));
    }
  }

  lemma {:induction false} ConvScaleRight(f: Poly, c: Elt, s: seq<Elt>, m: int)
    requires m < |s|
    ensures Conv(f, Scale(c, s), m) == Mul(c, Conv(f, s, m))
  {
    if f == [] || m < 0 {
      MulZero(c, Zero);
    } else {
      ConvScaleRight(f[1..], c, s, m - 1);
      MulSwap(f[0], c, s[m]);
      MulAdd(c, Mul(f[0], s[m]), Conv(f[1..], s, m - 1));
    }
  }

  /** Delaying the series by one term delays the product. */
  lemma {:induction false} ConvDelay(f: Poly, s: seq<Elt>, t: seq<Elt>, m: int)
    requires m < |t| && m <= |s|
    requires forall i :: 0 <= i <= m ==> t[i] == if i == 0 then Zero else s[i - 1]
    ensures Conv(f, t, m) == Conv(f, s, m - 1)
  {
    if f == [] || m < 0 {
    } else if m == 0 {
      MulZero(f[0], Zero);
      AddZero(Zero);
    } else {
      ConvDelay(f[1..], s, t, m - 1);
    }
  }

  /** A product with a series that vanishes on all the terms that f reaches from m vanishes. */
  lemma {:induction false} ConvVanishes(f: Poly, s: seq<Elt>, m: int)
    requires m < |s|
    requires forall i :: 0 <= i <= m && m - |f| < i ==> s[i] == Zero
    ensures Conv(f, s, m) == Zero
  {
    if f == [] || m < 0 {
    } else {
      ConvVanishes(f[1..], s, m - 1);
      MulZero(f[0], Zero);
      AddZero(Zero);
    }
  }

  /** Coefficients of f that are zero do not matter. */
  lemma {:induction false} ConvTrim(f: Poly, k: nat, s: seq<Elt>, m: int)
    requires m < |s| && k <= |f|
    requires forall i :: k <= i < |f| ==> f[i] == Zero
    ensures Conv(f, s, m) == Conv(f[..k], s, m)
  {
    if f == [] || m < 0 {
    } else if k == 0 {
      ConvTrim(f[1..], 0, s, m - 1);
      MulZero(Zero, s[m]);
      AddZero(Zero);
    } else {
      ConvTrim(f[1..], k - 1, s, m - 1);
      assert f[..k][1..] == f[1..][..k - 1];
    }
  }

  lemma ConvAllCons(f: Poly, s: seq<Elt>, tail: seq<Elt>)
    requires f != [] && |tail| == |s|
    requires forall i :: 0 <= i < |s| ==> tail[i] == if i == 0 then Zero else ConvAll(f[1..], s)[i - 1]
    ensures ConvAll(f, s) == Plus(Scale(f[0], s), tail)
  {
    var sum := Plus(Scale(f[0], s), tail);
    forall i | 0 <= i < |s|
      ensures ConvAll(f, s)[i] == sum[i]
    {
      assert Conv(f, s, i) == Add(Mul(f[0], s[i]), Conv(f[1..], s, i - 1));
    }
  }

  /** Multiplication of series is commutative and associative. */
  lemma {:induction false} ConvExchange(f: Poly, g: Poly, s: seq<Elt>, m: int)
    requires m < |s|
    ensures Conv(f, ConvAll(g, s), m) == Conv(g, ConvAll(f, s), m)
  {
    if m < 0 {
    } else if f == [] {
      ConvVanishes(g, ConvAll(f, s), m);
    } else {
      var rest := ConvAll(f[1..], s);
      var delayed := ([Zero] + rest)[..|s|];
      ConvAllCons(f, s, delayed);
      ConvPlusRight(g, Scale(f[0], s), delayed, m);
      ConvScaleRight(g, f[0], s, m);
      ConvDelay(g, rest, delayed, m);
      ConvExchange(f[1..], g, s, m - 1);
    }
  }

  /** c is a recurrence of length v for the first n terms of s. */
  ghost predicate Generates(c: Poly, v: nat, s: seq<Elt>, n: nat)
    requires n <= |s|
  {
    1 <= |c| <= v + 1 && c[0] == One && forall m :: v <= m < n ==> Conv(c, s, m) == Zero
  }

  /**
   If a recurrence f of length L that fails at term n and a recurrence c of length v that does
   not were both short, their product would say both; so v > n - L.
   */
  lemma MasseyBound(f: Poly, L: nat, c: Poly, v: nat, s: seq<Elt>, n: nat)
    requires n < |s| && |f| <= L + 1 && L <= n
    requires forall m :: L <= m < n ==> Conv(f, s, m) == Zero
    requires Conv(f, s, n) != Zero
    requires Generates(c, v, s, n + 1)
    ensures v >= n + 1 - L
  {
    if v + L <= n {
      ConvExchange(c, f, s, n);
      ConvVanishes(f, ConvAll(c, s), n);
      ConvVanishes(c[1..], ConvAll(f, s), n - 1);
      AddZero(Conv(f, s, n));
      MulOne(Conv(f, s, n));
    }
  }

  /** The working state: the recurrence psi of length len, the correction d, and the index k. */
  datatype State = State(psi: Poly, d: Poly, len: nat, k: int)

  /** Multiplication by z in a fixed number of coefficients. */
  ghost function TimesZ(f: Poly): (g: Poly)
    requires f != []
    ensures |g| == |f|
  {
    [Zero] + f[..|f| - 1]
  }

  ghost function Constant(width: nat): Poly
    requires 0 < width
  {
    seq(width, i => if i == 0 then One else Zero)
  }

  ghost function Init(width: nat): State
    requires 0 < width
  {
    State(Constant(width), TimesZ(Constant(width)), 0, -1)
  }

  ghost function Discrepancy(st: State, s: seq<Elt>, n: nat): Elt
    requires n < |s| && st.len < |st.psi|
  {
    Conv(st.psi[..st.len + 1], s, n)
  }

  ghost predicate Sized(st: State, width: nat) {
    |st.psi| == |st.d| == width && st.len < width
  }

  /** One round of the algorithm, on term n. */
  ghost function Step(st: State, s: seq<Elt>, n: nat): State
    requires n < |s| && Sized(st, |st.psi|)
  {
    var delta := Discrepancy(st, s, n);
    if delta == Zero then
      st.(d := TimesZ(st.d))
    else
      var psi2 := Plus(st.psi, Scale(delta, st.d));
      if st.len < n - st.k then
        State(psi2, TimesZ(Scale(Inv(delta), st.psi)), n - st.k, n - st.len)
      else
        st.(psi := psi2, d := TimesZ(st.d))
  }

  /** What holds before term n is looked at. */
  ghost predicate Shape(st: State, s: seq<Elt>, n: nat, width: nat)
    requires n <= |s|
  {
    && Sized(st, width) && n < width
    && st.len <= n && st.k == st.len - 1
    && st.psi[0] == One && st.d[0] == Zero
    && (forall i :: st.len < i < width ==> st.psi[i] == Zero)
    && (forall i :: n + 1 - st.len < i < width ==> st.d[i] == Zero)
  }

  /** psi generates the n first terms; d is zero on the terms before n it reaches, and one at n, as long as it fits. */
  ghost predicate Annihilates(st: State, s: seq<Elt>, n: nat)
    requires n <= |s|
  {
    && (forall m :: st.len <= m < n ==> Conv(st.psi, s, m) == Zero)
    && (st.len > 0 && n + 1 < |st.d| ==>
          && (forall m :: n + 1 - st.len <= m < n ==> Conv(st.d, s, m) == Zero)
          && (n < |s| ==> Conv(st.d, s, n) == One))
  }

  lemma ConvTimesZ(f: Poly, s: seq<Elt>, m: int)
    requires m < |s| && f != [] && f[|f| - 1] == Zero
    ensures Conv(TimesZ(f), s, m) == if m < 0 then Zero else Conv(f, s, m - 1)
  {
    if m >= 0 {
      var g := f[..|f| - 1];
      assert TimesZ(f)[1..] == g;
      ConvTrim(f, |f| - 1, s, m - 1);
      MulZero(Zero, s[m]);
      AddZero(Conv(g, s, m - 1));
    }
  }

  lemma DiscrepancyIsConv(st: State, s: seq<Elt>, n: nat, width: nat)
    requires n < |s| && Shape(st, s, n, width)
    ensures Discrepancy(st, s, n) == Conv(st.psi, s, n)
  {
    ConvTrim(st.psi, st.len + 1, s, n);
  }

  lemma StepShape(st: State, s: seq<Elt>, n: nat, width: nat)
    requires n < |s| && n + 1 < width && Shape(st, s, n, width)
    ensures Shape(Step(st, s, n), s, n + 1, width)
  {
    var delta := Discrepancy(st, s, n);
    if delta != Zero {
      var psi2 := Plus(st.psi, Scale(delta, st.d));
      forall i | n + 1 - st.len < i < width
        ensures Scale(delta, st.d)[i] == Zero
      {
        MulZero(delta, Zero);
      }
      forall i | 0 <= i < width && (i == 0 || (i > st.len && i > n + 1 - st.len))
        ensures psi2[i] == st.psi[i]
      {
        MulZero(delta, Zero);
        AddZero(st.psi[i]);
      }
      forall i | st.len < i < width
        ensures Scale(Inv(delta), st.psi)[i] == Zero
      {
        MulZero(Inv(delta), Zero);
      }
    }
  }

  /** The new psi annihilates one term more. */
  lemma StepPsi(st: State, s: seq<Elt>, n: nat, width: nat, m: nat)
    requires n < |s| && n + 1 < width && Shape(st, s, n, width) && Annihilates(st, s, n)
    requires Step(st, s, n).len <= m <= n
    ensures Conv(Step(st, s, n).psi, s, m) == Zero
  {
    DiscrepancyIsConv(st, s, n, width);
    var delta := Discrepancy(st, s, n);
    if delta != Zero {
      ConvPlus(st.psi, Scale(delta, st.d), s, m);
      ConvScale(delta, st.d, s, m);
      AddZero(Zero);
      AddZero(delta);
      MulZero(delta, Zero);
      MulOne(delta);
    }
  }

  /** The new d is again zero on the earlier terms it reaches and one at the next. */
  lemma StepD(st: State, s: seq<Elt>, n: nat, width: nat, m: nat)
    requires n < |s| && n + 2 < width && Shape(st, s, n, width) && Annihilates(st, s, n)
    requires m <= n + 1 && m < |s|
    requires Step(st, s, n).len > 0 && n + 2 - Step(st, s, n).len <= m
    ensures Conv(Step(st, s, n).d, s, m) == if m == n + 1 then One else Zero
  {
    DiscrepancyIsConv(st, s, n, width);
    var delta := Discrepancy(st, s, n);
    if delta != Zero && st.len < n - st.k {
      var f := Scale(Inv(delta), st.psi);
      MulZero(Inv(delta), Zero);
      ConvTimesZ(f, s, m);
      ConvScale(Inv(delta), st.psi, s, m - 1);
      MulComm(Inv(delta), delta);
    } else {
      ConvTimesZ(st.d, s, m);
    }
  }

  lemma StepAnnihilates(st: State, s: seq<Elt>, n: nat, width: nat)
    requires n < |s| && n + 1 < width && Shape(st, s, n, width) && Annihilates(st, s, n)
    ensures Annihilates(Step(st, s, n), s, n + 1)
  {
    var next := Step(st, s, n);
    forall m | next.len <= m < n + 1
      ensures Conv(next.psi, s, m) == Zero
    {
      StepPsi(st, s, n, width, m);
    }
    if next.len > 0 && n + 2 < width {
      forall m | n + 2 - next.len <= m < n + 1
        ensures Conv(next.d, s, m) == Zero
      {
        StepD(st, s, n, width, m);
      }
      if n + 1 < |s| {
        StepD(st, s, n, width, n + 1);
      }
    }
  }

  /** No recurrence for the terms seen so far is shorter. */
  lemma StepMinimal(st: State, s: seq<Elt>, n: nat, width: nat, c: Poly, v: nat)
    requires n < |s| && n + 1 < width && Shape(st, s, n, width) && Annihilates(st, s, n)
    requires Generates(c, v, s, n + 1) && st.len <= v
    ensures Step(st, s, n).len <= v
  {
    DiscrepancyIsConv(st, s, n, width);
    if Discrepancy(st, s, n) != Zero {
      var f := st.psi[..st.len + 1];
      ConvTrim(st.psi, st.len + 1, s, n);
      forall m | st.len <= m < n
        ensures Conv(f, s, m) == Zero
      {
        ConvTrim(st.psi, st.len + 1, s, m);
      }
      MasseyBound(f, st.len, c, v, s, n);
    }
  }

  /** The state before term n. */
  ghost function Run(s: seq<Elt>, n: nat, width: nat): (st: State)
    requires n <= |s| && n < width
    ensures Shape(st, s, n, width)
  {
    if n == 0 then Init(width)
    else
      StepShape(Run(s, n - 1, width), s, n - 1, width);
      Step(Run(s, n - 1, width), s, n - 1)
  }

  lemma {:induction false} RunAnnihilates(s: seq<Elt>, n: nat, width: nat)
    requires n <= |s| && n < width
    ensures Annihilates(Run(s, n, width), s, n)
  {
    if n > 0 {
      RunAnnihilates(s, n - 1, width);
      StepAnnihilates(Run(s, n - 1, width), s, n - 1, width);
    }
  }

  lemma {:induction false} RunMinimal(s: seq<Elt>, n: nat, width: nat, c: Poly, v: nat)
    requires n <= |s| && n < width && Generates(c, v, s, n)
    ensures Run(s, n, width).len <= v
  {
    if n > 0 {
      RunMinimal(s, n - 1, width, c, v);
      RunAnnihilates(s, n - 1, width);
      StepMinimal(Run(s, n - 1, width), s, n - 1, width, c, v);
    }
  }

  /** After every term the algorithm holds a shortest recurrence for the terms seen so far. */
  lemma ShortestRecurrence(s: seq<Elt>, n: nat, width: nat)
    requires n <= |s| && n < width
    ensures var st := Run(s, n, width);
      && Generates(st.psi[..st.len + 1], st.len, s, n)
      && forall c, v | Generates(c, v, s, n) :: st.len <= v
  {
    var st := Run(s, n, width);
    var f := st.psi[..st.len + 1];
    RunAnnihilates(s, n, width);
    forall m | st.len <= m < n
      ensures Conv(f, s, m) == Zero
    {
      ConvTrim(st.psi, st.len + 1, s, m);
    }
    forall c, v | Generates(c, v, s, n)
      ensures st.len <= v
    {
      RunMinimal(s, n, width, c, v);
    }
  }
}
