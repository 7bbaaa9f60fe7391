/** What encoding and decoding compute, on sequences, and the theorem that decoding corrects errors. */
module FecSpec {
  import opened Field
  import opened Polynomials
  import opened BerlekampMassey
  import opened ReedSolomon

  /** The word as a polynomial, highest coefficient first, at x. */
  ghost function Horner(word: seq<Elt>, x: Elt): Elt {
    if word == [] then Zero
    else Add(word[|word| - 1], Mul(x, Horner(word[..|word| - 1], x)))
  }

  ghost function Syndrome(word: seq<Elt>, j: nat): Elt {
    Horner(word, Alpha(j + 1))
  }

  ghost function Syndromes(word: seq<Elt>, p: nat): (s: seq<Elt>)
    ensures |s| == p
  {
    seq(p, j requires 0 <= j < p => Syndrome(word, j))
  }

  ghost predicate IsCodeword(word: seq<Elt>, p: nat) {
    forall j :: 0 <= j < p ==> Syndrome(word, j) == Zero
  }

  ghost function Reverse(s: seq<Elt>): (r: seq<Elt>)
    ensures |r| == |s|
    ensures forall i :: 0 <= i < |s| ==> r[i] == s[|s| - 1 - i]
  {
    if s == [] then [] else [s[|s| - 1]] + Reverse(s[..|s| - 1])
  }

  // Encoding.

  ghost function GeneratorRoots(p: nat): (r: seq<Elt>)
    ensures |r| == p
    ensures forall j :: 1 <= j <= p ==> Alpha(j) in r
  {
    if p == 0 then [] else [Alpha(p)] + GeneratorRoots(p - 1)
  }

  ghost function Generator(p: nat): (g: Poly)
    ensures |g| == p + 1
  {
    Product(GeneratorRoots(p))
  }

  /** One message byte enters the shift register. */
  ghost function Feed(reg: seq<Elt>, g: Poly, byte: Elt): (r: seq<Elt>)
    requires |g| == |reg| + 1 && reg != []
    ensures |r| == |reg|
  {
    var b := Add(byte, reg[|reg| - 1]);
    seq(|reg|, j requires 0 <= j < |reg| =>
      if j == 0 then Mul(g[0], b) else Add(reg[j - 1], Mul(g[j], b)))
  }

  ghost function Register(msg: seq<Elt>, p: nat): (reg: seq<Elt>)
    requires p > 0
    ensures |reg| == p
  {
    if msg == [] then seq(p, j => Zero)
    else Feed(Register(msg[..|msg| - 1], p), Generator(p), msg[|msg| - 1])
  }

  ghost function Parity(msg: seq<Elt>, p: nat): (r: seq<Elt>)
    requires p > 0
    ensures |r| == p
  {
    Reverse(Register(msg, p))
  }

  lemma {:induction false} ProductIsMonic(s: seq<Elt>)
    ensures Product(s)[|s|] == One
  {
    if s != [] {
      var g := Product(s[1..]);
      ProductIsMonic(s[1..]);
      MulZero(s[0], Zero);
      AddZero(One);
      assert Scale(s[0], g + [Zero])[|s|] == Zero;
    }
  }

  lemma GeneratorAtRoot(p: nat, j: nat)
    requires 1 <= j <= p
    ensures Eval(Generator(p)[..p], Alpha(j)) == Pow(Alpha(j), p)
  {
    var g, r := Generator(p), Alpha(j);
    EvalProduct(GeneratorRoots(p), r);
    ProductIsMonic(GeneratorRoots(p));
    EvalSplit(g, p, r);
    assert g[p..][1..] == [];
    MulZero(r, Zero);
    AddZero(One);
    MulOne(Pow(r, p));
    AddCancel(Eval(g[..p], r), Pow(r, p));
  }

  lemma FeedAtRoot(reg: seq<Elt>, g: Poly, byte: Elt, r: Elt, p: nat)
    requires |reg| == p > 0 && |g| == p + 1 && Eval(g[..p], r) == Pow(r, p)
    ensures Eval(Feed(reg, g, byte), r) == Add(Mul(r, Eval(reg, r)), Mul(Pow(r, p), byte))
  {
    var last := reg[p - 1];
    var b := Add(byte, last);
    FeedAsSum(reg, g, byte, p);
    EvalPlus(TimesZ(reg), Scale(b, g[..p]), r);
    EvalScale(b, g[..p], r);
    EvalShifted(reg[..p - 1], r);
    var low := Eval(reg[..p - 1], r);
    assert Eval(reg, r) == Add(low, Mul(Pow(r, p - 1), last)) by {
      EvalSplit(reg, p - 1, r);
      assert reg[p - 1..][1..] == [];
      MulZero(r, Zero);
      AddZero(last);
    }
    var top := Mul(Pow(r, p), last);
    assert Mul(r, Eval(reg, r)) == Add(Mul(r, low), top) by {
      MulAdd(r, low, Mul(Pow(r, p - 1), last));
      MulAssoc(r, Pow(r, p - 1), last);
    }
    assert Mul(b, Pow(r, p)) == Add(Mul(Pow(r, p), byte), top) by {
      MulComm(b, Pow(r, p));
      MulAdd(Pow(r, p), byte, last);
    }
    AddComm(Mul(Pow(r, p), byte), top);
    AddAssoc(Mul(r, low), top, Mul(Pow(r, p), byte));
  }

  lemma FeedAsSum(reg: seq<Elt>, g: Poly, byte: Elt, p: nat)
    requires |reg| == p > 0 && |g| == p + 1
    ensures Feed(reg, g, byte) == Plus(TimesZ(reg), Scale(Add(byte, reg[p - 1]), g[..p]))
  {
    var b := Add(byte, reg[p - 1]);
    forall j | 0 <= j < p
      ensures Feed(reg, g, byte)[j] == Plus(TimesZ(reg), Scale(b, g[..p]))[j]
    {
      MulComm(g[j], b);
      AddZero(Mul(b, g[j]));
    }
  }

  /** At the roots of the generator the register holds x^p times the message. */
  lemma {:induction false} RegisterAtRoot(msg: seq<Elt>, p: nat, j: nat)
    requires 1 <= j <= p
    ensures Eval(Register(msg, p), Alpha(j)) == Mul(Pow(Alpha(j), p), Horner(msg, Alpha(j)))
  {
    var r := Alpha(j);
    if msg == [] {
      EvalOfZero(Register(msg, p), r);
      MulZero(Pow(r, p), Zero);
    } else {
      var front, byte := msg[..|msg| - 1], msg[|msg| - 1];
      RegisterAtRoot(front, p, j);
      GeneratorAtRoot(p, j);
      FeedAtRoot(Register(front, p), Generator(p), byte, r, p);
      var h := Horner(front, r);
      MulSwap(r, Pow(r, p), h);
      MulAdd(Pow(r, p), byte, Mul(r, h));
      AddComm(Mul(Pow(r, p), byte), Mul(Pow(r, p), Mul(r, h)));
    }
  }

  lemma {:induction false} HornerConcat(a: seq<Elt>, b: seq<Elt>, x: Elt)
    ensures Horner(a + b, x) == Add(Mul(Pow(x, |b|), Horner(a, x)), Eval(Reverse(b), x))
  {
    if b == [] {
      assert a + b == a;
      MulOne(Horner(a, x));
      AddZero(Horner(a, x));
    } else {
      var front, last := b[..|b| - 1], b[|b| - 1];
      HornerConcat(a, front, x);
      assert (a + b)[..|a + b| - 1] == a + front;
      assert Reverse(b)[1..] == Reverse(front);
      var h, e := Mul(Pow(x, |front|), Horner(a, x)), Eval(Reverse(front), x);
      MulAdd(x, h, e);
      MulAssoc(x, Pow(x, |front|), Horner(a, x));
      AddSwap(last, Mul(x, h), Mul(x, e));
    }
  }

  /** Every message with its parity is a codeword. */
  lemma EncodedIsCodeword(msg: seq<Elt>, p: nat)
    requires p > 0
    ensures IsCodeword(msg + Parity(msg, p), p)
  {
    forall j | 0 <= j < p
      ensures Syndrome(msg + Parity(msg, p), j) == Zero
    {
      var r := Alpha(j + 1);
      HornerConcat(msg, Parity(msg, p), r);
      assert Reverse(Parity(msg, p)) == Register(msg, p);
      RegisterAtRoot(msg, p, j + 1);
      AddZero(Eval(Register(msg, p), r));
    }
  }

  // Decoding.

  datatype Status = NoErrors | CorrectedErrors | UncorrectableErrors

  ghost predicate IsLocation(f: Poly, l: nat) {
    l < 255 && Eval(f, Alpha(255 - l)) == Zero
  }

  /** The locations 255 - r of the roots Alpha(r), for r up to n, in the order of r. */
  ghost function Locations(f: Poly, n: nat): (locs: seq<nat>)
    requires n <= 255
    ensures forall i :: 0 <= i < |locs| ==> 255 - n <= locs[i] && IsLocation(f, locs[i])
    ensures forall i, j :: 0 <= i < j < |locs| ==> locs[i] > locs[j]
  {
    if n == 0 then []
    else
      var l := 255 - n;
      if IsLocation(f, l) then Locations(f, n - 1) + [l] else Locations(f, n - 1)
  }

  lemma {:induction false} LocationsComplete(f: Poly, n: nat, l: nat)
    requires n <= 255 && 255 - n <= l && IsLocation(f, l)
    ensures l in Locations(f, n)
  {
    if l == 255 - n {
      assert Locations(f, n) == Locations(f, n - 1) + [l];
    } else {
      LocationsComplete(f, n - 1, l);
    }
  }

  /** The root search stops when it has found eight locations. */
  ghost function Located(f: Poly): (locs: seq<nat>)
    ensures |locs| <= 8
    ensures forall i :: 0 <= i < |locs| ==> locs[i] < 255
  {
    var locs := Locations(f, 255);
    if |locs| > 8 then locs[..8] else locs
  }

  ghost predicate AllBelow(locs: seq<nat>, n: nat) {
    forall i :: 0 <= i < |locs| ==> locs[i] < n
  }

  /** Division as the tables do it: the logarithm of zero reads as the one of one. */
  ghost function Quotient(a: Elt, b: Elt): Elt {
    Mul(a, if b == Zero then One else Inv(b))
  }

  ghost function ErrorValue(f: Poly, s: seq<Elt>, loc: nat): Elt
    requires loc < 255
  {
    var y := Alpha(255 - loc);
    Quotient(Eval(ConvAll(f, s), y), Deriv(f, y))
  }

  /** The word with the error values added at the first n of the given locations, one after the other. */
  ghost function CorrectedAtFirst(word: seq<Elt>, f: Poly, s: seq<Elt>, locs: seq<nat>, n: nat): (r: seq<Elt>)
    requires n <= |locs| && forall i :: 0 <= i < |locs| ==> locs[i] < |word| && locs[i] < 255
    ensures |r| == |word|
  {
    if n == 0 then word
    else
      var w := CorrectedAtFirst(word, f, s, locs, n - 1);
      var at := |w| - 1 - locs[n - 1];
      w[at := Add(w[at], ErrorValue(f, s, locs[n - 1]))]
  }

  /** The word with the error values added at all the given locations. */
  ghost function Corrected(word: seq<Elt>, f: Poly, s: seq<Elt>, locs: seq<nat>): (r: seq<Elt>)
    requires forall i :: 0 <= i < |locs| ==> locs[i] < |word| && locs[i] < 255
    ensures |r| == |word|
  {
    CorrectedAtFirst(word, f, s, locs, |locs|)
  }

  /** Correction of a word from its syndromes s. */
  ghost function Correct(word: seq<Elt>, s: seq<Elt>): (r: (Status, seq<Elt>))
    requires |s| >= 1
    ensures |r.1| == |word|
  {
    var f := Locator(s, 2 * |s|);
    var locs := Located(f);
    if 0 < |locs| <= |s| && AllBelow(locs, |word|) then
      (CorrectedErrors, Corrected(word, f, s, locs))
    else
      (UncorrectableErrors, word)
  }

  ghost function Decode(word: seq<Elt>, p: nat): (r: (Status, seq<Elt>))
    requires p >= 1
    ensures |r.1| == |word|
  {
    if IsCodeword(word, p) then (NoErrors, word) else Correct(word, Syndromes(word, p))
  }

  /** The changes from one word to another, made to a third. */
  ghost function Changed(b: seq<Elt>, word: seq<Elt>, out: seq<Elt>): (r: seq<Elt>)
    requires |b| == |word| == |out|
    ensures |r| == |b|
  {
    seq(|b|, i requires 0 <= i < |b| => Add(b[i], Add(word[i], out[i])))
  }

  /** The number of positions where the words differ. */
  ghost function Distance(a: seq<Elt>, b: seq<Elt>): nat
    requires |a| == |b|
  {
    if a == [] then 0
    else Distance(a[..|a| - 1], b[..|a| - 1]) + (if a[|a| - 1] == b[|a| - 1] then 0 else 1)
  }

  // The received word as a codeword plus errors at locators.

  ghost function LocatorsFrom(o: nat, n: nat): (xs: seq<Elt>)
    ensures |xs| == n
  {
    seq(n, k requires 0 <= k < n => Alpha(o + k))
  }

  ghost function Roots(n: nat): (ys: seq<Elt>)
    requires n <= 255
    ensures |ys| == n
  {
    seq(n, k requires 0 <= k < n => Alpha(255 - k))
  }

  lemma LocatorsAreLocators(n: nat)
    requires n <= 255
    ensures Locators(LocatorsFrom(0, n)) && Inverses(LocatorsFrom(0, n), Roots(n))
  {
    forall k | 0 <= k < n
      ensures Alpha(k) != Zero && Mul(Alpha(k), Alpha(255 - k)) == One
    {
      AlphaNonzero(k);
      AlphaPlus(k, 255 - k);
      AlphaUnits();
    }
    forall i, j | 0 <= i < j < n
      ensures Alpha(i) != Alpha(j)
    {
      AlphaDistinct(i, j);
    }
  }

  lemma {:induction false} HornerPlus(a: seq<Elt>, b: seq<Elt>, x: Elt)
    requires |a| == |b|
    ensures Horner(Plus(a, b), x) == Add(Horner(a, x), Horner(b, x))
  {
    if a == [] {
      AddZero(Zero);
    } else {
      var m := |a| - 1;
      assert Plus(a, b)[..m] == Plus(a[..m], b[..m]);
      HornerPlus(a[..m], b[..m], x);
      var h, e := Horner(a[..m], x), Horner(b[..m], x);
      MulAdd(x, h, e);
      AddFour(a[m], b[m], Mul(x, h), Mul(x, e));
    }
  }

  lemma {:induction false} PowOfOne(k: nat)
    ensures Pow(One, k) == One
  {
    if k > 0 {
      PowOfOne(k - 1);
      MulOne(One);
    }
  }

  lemma {:induction false} PowOfProduct(i: nat, j: nat)
    ensures Pow(Alpha(i + 1), j) == Mul(Alpha(j), Pow(Alpha(i), j))
  {
    if j == 0 {
      AlphaUnits();
      MulOne(One);
    } else {
      var e := Pow(Alpha(i), j - 1);
      PowOfProduct(i, j - 1);
      AlphaPlus(1, i);
      AlphaPlus(1, j - 1);
      MulAssoc(Alpha(1), Alpha(i), Mul(Alpha(j - 1), e));
      MulSwap(Alpha(i), Alpha(j - 1), e);
      MulAssoc(Alpha(1), Alpha(j - 1), Mul(Alpha(i), e));
    }
  }

  /** The syndromes of the errors, counted from locator o on. */
  lemma {:induction false} SynIsHorner(err: seq<Elt>, o: nat, p: nat, j: nat)
    requires j < p
    ensures Syn(Reverse(err), LocatorsFrom(o, |err|), p)[j]
         == Mul(Pow(Alpha(o), j + 1), Horner(err, Alpha(j + 1)))
  {
    var x := Pow(Alpha(o), j + 1);
    if err == [] {
      MulZero(x, Zero);
    } else {
      var front, last := err[..|err| - 1], err[|err| - 1];
      var h, a := Horner(front, Alpha(j + 1)), Alpha(j + 1);
      var rest := Syn(Reverse(front), LocatorsFrom(o + 1, |front|), p);
      assert rest[j] == Mul(x, Mul(a, h)) by {
        SynIsHorner(front, o + 1, p, j);
        PowOfProduct(o, j + 1);
        MulComm(a, x);
        MulAssoc(x, a, h);
      }
      assert Syn(Reverse(err), LocatorsFrom(o, |err|), p) == Plus(Scale(last, Geo(Alpha(o), p)), rest) by {
        assert LocatorsFrom(o, |err|)[1..] == LocatorsFrom(o + 1, |front|);
        assert Reverse(err)[1..] == Reverse(front);
      }
      MulAdd(x, last, Mul(a, h));
      MulComm(x, last);
    }
  }

  lemma SyndromesOfErrors(word: seq<Elt>, code: seq<Elt>, p: nat)
    requires |word| == |code| && IsCodeword(code, p)
    ensures Syndromes(word, p) == Syn(Reverse(Plus(word, code)), LocatorsFrom(0, |word|), p)
  {
    var s := Syn(Reverse(Plus(word, code)), LocatorsFrom(0, |word|), p);
    forall j | 0 <= j < p
      ensures Syndromes(word, p)[j] == s[j]
    {
      SynIsHorner(Plus(word, code), 0, p, j);
      HornerPlus(word, code, Alpha(j + 1));
      assert Syndrome(code, j) == Zero;
      AddZero(Syndrome(word, j));
      AlphaUnits();
      PowOfOne(j + 1);
      MulOne(Syndrome(word, j));
    }
  }

  lemma {:induction false} WeightIsDistance(word: seq<Elt>, code: seq<Elt>)
    requires |word| == |code|
    ensures Weight(Reverse(Plus(word, code))) == Distance(word, code)
  {
    if word != [] {
      var m := |word| - 1;
      WeightIsDistance(word[..m], code[..m]);
      assert Plus(word, code)[..m] == Plus(word[..m], code[..m]);
      assert Reverse(Plus(word, code))[1..] == Reverse(Plus(word[..m], code[..m]));
      AddCancel(word[m], code[m]);
    }
  }

  ghost function Errors(word: seq<Elt>, code: seq<Elt>): (es: seq<Elt>)
    requires |word| == |code|
    ensures |es| == |word|
  {
    Reverse(Plus(word, code))
  }

  lemma ErrorAt(word: seq<Elt>, code: seq<Elt>, k: nat)
    requires |word| == |code| && k < |word|
    ensures var i := |word| - 1 - k;
      && (Errors(word, code)[k] == Zero <==> word[i] == code[i])
      && Add(word[i], Errors(word, code)[k]) == code[i]
  {
    var i := |word| - 1 - k;
    AddCancel(word[i], code[i]);
  }

  lemma ErrorModel(word: seq<Elt>, code: seq<Elt>, p: nat)
    requires |word| == |code| <= 255 && IsCodeword(code, p)
    ensures var n := |word|;
      && Locators(LocatorsFrom(0, n)) && Inverses(LocatorsFrom(0, n), Roots(n))
      && Syndromes(word, p) == Syn(Errors(word, code), LocatorsFrom(0, n), p)
      && Weight(Errors(word, code)) == Distance(word, code)
  {
    WeightIsDistance(word, code);
    LocatorsAreLocators(|word|);
    SyndromesOfErrors(word, code, p);
  }

  lemma NoSyndromesNoErrors(es: seq<Elt>, xs: seq<Elt>, ys: seq<Elt>, p: nat, k: nat)
    requires |es| == |xs| && Locators(xs) && Inverses(xs, ys) && Weight(es) <= p && k < |es|
    requires forall j :: 0 <= j < p ==> Syn(es, xs, p)[j] == Zero
    ensures es[k] == Zero
  {
    if es[k] != Zero {
      forall m | 0 <= m < p
        ensures Conv([One], Syn(es, xs, p), m) == Zero
      {
        MulZero(One, Zero);
        AddZero(Zero);
      }
      RecurrenceRoots(es, xs, ys, p, [One], 0, k);
      MulZero(ys[k], Zero);
      AddZero(One);
      OneIsNotZero();
    }
  }

  /** Two codewords differ in more than p places. */
  lemma MinimumDistance(word: seq<Elt>, code: seq<Elt>, p: nat)
    requires |word| == |code| <= 255 && IsCodeword(word, p) && IsCodeword(code, p) && word != code
    ensures Distance(word, code) > p
  {
    var n := |word|;
    var i :| 0 <= i < n && word[i] != code[i];
    ErrorAt(word, code, n - 1 - i);
    ErrorModel(word, code, p);
    if Distance(word, code) <= p {
      forall j | 0 <= j < p
        ensures Syndromes(word, p)[j] == Zero
      {
        assert Syndrome(word, j) == Zero;
      }
      NoSyndromesNoErrors(Errors(word, code), LocatorsFrom(0, n), Roots(n), p, n - 1 - i);
    }
  }

  lemma RootsDistinct(k: nat, l: nat)
    requires k < 255 && l < 255 && Alpha(255 - k) == Alpha(255 - l)
    ensures k == l
  {
    AlphaUnits();
    var i, j := (255 - k) % 255, (255 - l) % 255;
    assert Alpha(i) == Alpha(j);
    if i < j {
      AlphaDistinct(i, j);
    } else if j < i {
      AlphaDistinct(j, i);
    }
  }

  // A locator polynomial f for the errors es.

  lemma LocationsAreErrors(f: Poly, es: seq<Elt>, l: nat)
    requires |es| <= 255 && Locates(f, es, Roots(|es|)) && l < 255
    ensures IsLocation(f, l) <==> l < |es| && es[l] != Zero
    ensures IsLocation(f, l) ==> Deriv(f, Alpha(255 - l)) != Zero
  {
    var ys, z := Roots(|es|), Alpha(255 - l);
    assert Eval(f, z) == Zero <==> z in ErrorRoots(es, ys);
    if l < |es| {
      assert ys[l] == z;
    }
    if z in ErrorRoots(es, ys) {
      var k :| 0 <= k < |es| && es[k] != Zero && ys[k] == z;
      RootsDistinct(k, l);
    }
  }

  /** f has simple roots at all the inverse error locators. */
  ghost predicate HasErrorRoots(f: Poly, es: seq<Elt>)
    requires |es| <= 255
  {
    forall k :: 0 <= k < |es| && es[k] != Zero ==>
      Eval(f, Roots(|es|)[k]) == Zero && Deriv(f, Roots(|es|)[k]) != Zero
  }

  lemma ErrorValues(f: Poly, es: seq<Elt>, p: nat, l: nat)
    requires |es| <= 255 && HasErrorRoots(f, es) && |f| <= p + 1
    requires l < |es| && es[l] != Zero
    ensures ErrorValue(f, Syn(es, LocatorsFrom(0, |es|), p), l) == es[l]
  {
    var n := |es|;
    LocatorsAreLocators(n);
    Forney(f, es, LocatorsFrom(0, n), Roots(n), p, l);
    var d := Deriv(f, Roots(n)[l]);
    MulAssoc(es[l], d, Inv(d));
    MulOne(es[l]);
  }

  /** No more locations are found than the degree of f allows. */
  lemma LocationCount(f: Poly)
    requires f != [] && f[0] == One
    ensures |Locations(f, 255)| < |f|
  {
    var locs := Locations(f, 255);
    var roots := seq(|locs|, i requires 0 <= i < |locs| => Alpha(255 - locs[i]));
    forall i, j | 0 <= i < j < |roots|
      ensures roots[i] != roots[j]
    {
      if roots[i] == roots[j] {
        RootsDistinct(locs[i], locs[j]);
      }
    }
    if |locs| >= |f| {
      RootBound(f, roots);
      OneIsNotZero();
    }
  }

  lemma {:induction false} CorrectedAt(word: seq<Elt>, f: Poly, s: seq<Elt>, locs: seq<nat>, n: nat, l: nat)
    requires n <= |locs| && forall i :: 0 <= i < |locs| ==> locs[i] < |word| && locs[i] < 255
    requires forall i, j :: 0 <= i < j < |locs| ==> locs[i] > locs[j]
    requires l < |word|
    ensures var i := |word| - 1 - l;
      CorrectedAtFirst(word, f, s, locs, n)[i] == if l in locs[..n] then Add(word[i], ErrorValue(f, s, l)) else word[i]
  {
    if n > 0 {
      CorrectedAt(word, f, s, locs, n - 1, l);
      assert locs[..n] == locs[..n - 1] + [locs[n - 1]];
    }
  }

  lemma LocatedErrors(f: Poly, es: seq<Elt>)
    requires |es| <= 255 && Locates(f, es, Roots(|es|))
    ensures HasErrorRoots(f, es)
    ensures forall l :: l in Locations(f, 255) <==> 0 <= l < |es| && es[l] != Zero
  {
    forall k | 0 <= k < |es| && es[k] != Zero
      ensures Eval(f, Roots(|es|)[k]) == Zero && Deriv(f, Roots(|es|)[k]) != Zero
    {
      LocationsAreErrors(f, es, k);
    }
    forall l: nat
      ensures l in Locations(f, 255) <==> l < |es| && es[l] != Zero
    {
      if l < 255 {
        LocationsAreErrors(f, es, l);
        if IsLocation(f, l) {
          LocationsComplete(f, 255, l);
        }
      }
    }
  }

  lemma CorrectedByte(word: seq<Elt>, code: seq<Elt>, f: Poly, p: nat, locs: seq<nat>, l: nat)
    requires |word| == |code| <= 255 && HasErrorRoots(f, Errors(word, code)) && |f| <= p + 1
    requires AllBelow(locs, |word|) && forall i, j :: 0 <= i < j < |locs| ==> locs[i] > locs[j]
    requires l < |word| && (l in locs <==> Errors(word, code)[l] != Zero)
    ensures var i := |word| - 1 - l;
      Corrected(word, f, Syn(Errors(word, code), LocatorsFrom(0, |word|), p), locs)[i] == code[i]
  {
    CorrectedAt(word, f, Syn(Errors(word, code), LocatorsFrom(0, |word|), p), locs, |locs|, l);
    assert locs[..|locs|] == locs;
    ErrorAt(word, code, l);
    if l in locs {
      ErrorValues(f, Errors(word, code), p, l);
    }
  }

  /** Correction at the error locations, with the error values, restores the codeword. */
  lemma CorrectedIsCode(word: seq<Elt>, code: seq<Elt>, f: Poly, p: nat, locs: seq<nat>, s: seq<Elt>)
    requires |word| == |code| <= 255 && HasErrorRoots(f, Errors(word, code)) && |f| <= p + 1
    requires AllBelow(locs, |word|) && forall i, j :: 0 <= i < j < |locs| ==> locs[i] > locs[j]
    requires forall l :: 0 <= l < |word| ==> (l in locs <==> Errors(word, code)[l] != Zero)
    requires s == Syn(Errors(word, code), LocatorsFrom(0, |word|), p)
    ensures Corrected(word, f, s, locs) == code
  {
    forall i | 0 <= i < |word|
      ensures Corrected(word, f, s, locs)[i] == code[i]
    {
      CorrectedByte(word, code, f, p, locs, |word| - 1 - i);
    }
  }

  lemma DecoderLocates(word: seq<Elt>, code: seq<Elt>, p: nat)
    requires |word| == |code| <= 255 && 1 <= p
    requires IsCodeword(code, p) && 2 * Distance(word, code) <= p
    ensures Locates(Locator(Syndromes(word, p), 2 * p), Errors(word, code), Roots(|word|))
  {
    ErrorModel(word, code, p);
    LocatorLocates(Errors(word, code), LocatorsFrom(0, |word|), Roots(|word|), p, 2 * p);
  }

  /** The locations are those of the errors, and f gives the error values there. */
  ghost predicate Finds(f: Poly, locs: seq<nat>, es: seq<Elt>, p: nat) {
    && |es| <= 255 && HasErrorRoots(f, es) && |locs| < |f| <= p + 1
    && (forall l :: l in locs <==> 0 <= l < |es| && es[l] != Zero)
    && (forall i, j :: 0 <= i < j < |locs| ==> locs[i] > locs[j])
  }

  lemma LocatesFinds(f: Poly, es: seq<Elt>, p: nat)
    requires |es| <= 255 && Locates(f, es, Roots(|es|)) && Weight(es) <= p
    ensures Finds(f, Locations(f, 255), es, p)
  {
    LocatedErrors(f, es);
    LocationCount(f);
  }

  lemma FoundIsCorrected(word: seq<Elt>, code: seq<Elt>, p: nat, f: Poly, s: seq<Elt>, locs: seq<nat>)
    requires |word| == |code| <= 255 && word != code
    requires Finds(f, locs, Errors(word, code), p)
    requires s == Syn(Errors(word, code), LocatorsFrom(0, |word|), p)
    ensures 0 < |locs| <= p && AllBelow(locs, |word|)
    ensures Corrected(word, f, s, locs) == code
  {
    var i :| 0 <= i < |word| && word[i] != code[i];
    ErrorAt(word, code, |word| - 1 - i);
    assert |word| - 1 - i in locs;
    forall i | 0 <= i < |locs|
      ensures locs[i] < |word|
    {
      assert locs[i] in locs;
    }
    CorrectedIsCode(word, code, f, p, locs, s);
  }

  lemma DecodeFinds(word: seq<Elt>, code: seq<Elt>, p: nat)
    requires |word| == |code| <= 255 && 1 <= p
    requires IsCodeword(code, p) && 2 * Distance(word, code) <= p
    ensures var f := Locator(Syndromes(word, p), 2 * p); Finds(f, Locations(f, 255), Errors(word, code), p)
    ensures Syndromes(word, p) == Syn(Errors(word, code), LocatorsFrom(0, |word|), p)
  {
    ErrorModel(word, code, p);
    DecoderLocates(word, code, p);
    LocatesFinds(Locator(Syndromes(word, p), 2 * p), Errors(word, code), p);
  }

  /** With up to p/2 wrong bytes, decoding restores the codeword and says whether it had to. */
  lemma DecodeCorrects(word: seq<Elt>, code: seq<Elt>, p: nat)
    requires |word| == |code| <= 255 && 1 <= p <= 8
    requires IsCodeword(code, p) && 2 * Distance(word, code) <= p
    ensures Decode(word, p) == (if word == code then NoErrors else CorrectedErrors, code)
  {
    if word != code {
      if IsCodeword(word, p) {
        MinimumDistance(word, code, p);
      }
      var s := Syndromes(word, p);
      var f := Locator(s, 2 * p);
      DecodeFinds(word, code, p);
      FoundIsCorrected(word, code, p, f, s, Locations(f, 255));
    }
  }

  /** Encoding, then changing up to p/2 bytes of message and parity, then decoding. */
  lemma RoundTrip(msg: seq<Elt>, word: seq<Elt>, p: nat)
    requires 1 <= p <= 8 && |word| == |msg| + p <= 255
    requires 2 * Distance(word, msg + Parity(msg, p)) <= p
    ensures Decode(word, p).1 == msg + Parity(msg, p)
    ensures Decode(word, p).0 == if word == msg + Parity(msg, p) then NoErrors else CorrectedErrors
  {
    EncodedIsCodeword(msg, p);
    DecodeCorrects(word, msg + Parity(msg, p), p);
  }

  // Corrections made to other bytes than those the syndromes were taken of.

  lemma {:induction false} SameChanges(b: seq<Elt>, word: seq<Elt>, f: Poly, s: seq<Elt>, locs: seq<nat>,
                                       n: nat, i: nat)
    requires |b| == |word| && i < |b| && n <= |locs| && AllBelow(locs, |word|) && AllBelow(locs, 255)
    ensures CorrectedAtFirst(b, f, s, locs, n)[i] == Add(b[i], Add(word[i], CorrectedAtFirst(word, f, s, locs, n)[i]))
  {
    if n == 0 {
      AddZero(word[i]);
      AddZero(b[i]);
    } else {
      SameChanges(b, word, f, s, locs, n - 1, i);
      var w, e := CorrectedAtFirst(word, f, s, locs, n - 1)[i], ErrorValue(f, s, locs[n - 1]);
      AddAssoc(word[i], w, e);
      AddAssoc(b[i], Add(word[i], w), e);
    }
  }

  lemma NothingChanged(b: seq<Elt>, word: seq<Elt>)
    requires |b| == |word|
    ensures Changed(b, word, word) == b
  {
    forall i | 0 <= i < |b|
      ensures Changed(b, word, word)[i] == b[i]
    {
      AddZero(word[i]);
      AddZero(b[i]);
    }
  }

  lemma CorrectChanges(b: seq<Elt>, word: seq<Elt>, s: seq<Elt>)
    requires |b| == |word| && s != []
    ensures Correct(b, s).0 == Correct(word, s).0
    ensures Correct(b, s).1 == Changed(b, word, Correct(word, s).1)
  {
    var f := Locator(s, 2 * |s|);
    var locs := Located(f);
    if 0 < |locs| <= |s| && AllBelow(locs, |word|) {
      var right := Changed(b, word, Corrected(word, f, s, locs));
      forall i | 0 <= i < |b|
        ensures Corrected(b, f, s, locs)[i] == right[i]
      {
        SameChanges(b, word, f, s, locs, |locs|, i);
      }
    } else {
      NothingChanged(b, word);
    }
  }

  /** Where the bytes are the word's own, its changes give what it was changed to. */
  lemma OwnChanges(b: seq<Elt>, word: seq<Elt>, out: seq<Elt>, i: nat)
    requires |b| == |word| == |out| && i < |b|
    ensures b[i] == word[i] ==> Changed(b, word, out)[i] == out[i]
    ensures Changed(b, word, out)[i] == b[i] <==> word[i] == out[i]
  {
    AddCancel(word[i], out[i]);
    AddCancel(b[i], Add(word[i], out[i]));
    AddZero(b[i]);
  }

  lemma ChangedApart(b: seq<Elt>, word: seq<Elt>, out: seq<Elt>, len: nat)
    requires |b| == |word| == |out| && len <= |b| && b[..len] == word[..len]
    ensures Changed(b, word, out)[..len] == out[..len]
    ensures forall i :: 0 <= i < |b| ==> (Changed(b, word, out)[i] == b[i] <==> word[i] == out[i])
  {
    forall i | 0 <= i < |b|
      ensures Changed(b, word, out)[i] == b[i] <==> word[i] == out[i]
    {
      OwnChanges(b, word, out, i);
    }
    forall i | 0 <= i < len
      ensures Changed(b, word, out)[i] == out[i]
    {
      assert b[..len][i] == word[..len][i];
      OwnChanges(b, word, out, i);
    }
  }

  lemma ApartOutcome(msg: seq<Elt>, got: seq<Elt>, parity: seq<Elt>, behind: seq<Elt>, check: seq<Elt>)
    requires |got| == |msg| && |parity| == |behind| == |check|
    ensures var after := Changed(got + behind, got + parity, msg + check);
      && after[..|msg|] == msg
      && forall j :: 0 <= j < |check| ==> (after[|msg| + j] == behind[j] <==> parity[j] == check[j])
  {
    var b, word, out := got + behind, got + parity, msg + check;
    assert b[..|msg|] == got == word[..|msg|] && out[..|msg|] == msg;
    ChangedApart(b, word, out, |msg|);
    forall j | 0 <= j < |check|
      ensures Changed(b, word, out)[|msg| + j] == behind[j] <==> parity[j] == check[j]
    {
      assert b[|msg| + j] == behind[j] && word[|msg| + j] == parity[j] && out[|msg| + j] == check[j];
    }
  }

  /** A message with its parity kept elsewhere, and other bytes behind it: up to p/2 wrong bytes of message and parity
      are corrected in the message, and the bytes behind it are changed exactly where the parity was wrong. */
  lemma RoundTripApart(msg: seq<Elt>, got: seq<Elt>, parity: seq<Elt>, behind: seq<Elt>, p: nat)
    requires 1 <= p <= 8 && |got| == |msg| && |parity| == |behind| == p && |msg| + p <= 255
    requires 2 * Distance(got + parity, msg + Parity(msg, p)) <= p
    ensures var after := Changed(got + behind, got + parity, Decode(got + parity, p).1);
      && after[..|msg|] == msg
      && forall j :: 0 <= j < p ==> (after[|msg| + j] == behind[j] <==> parity[j] == Parity(msg, p)[j])
  {
    RoundTrip(msg, got + parity, p);
    ApartOutcome(msg, got, parity, behind, Parity(msg, p));
  }
}
