/** What the decoder answers to every word there is, and what it leaves of it. */
module FecOutcome {
  import opened Field
  import opened Polynomials
  import opened BerlekampMassey
  import opened ReedSolomon
  import opened FecSpec
  import opened FecBeyond
  import F = Fec
  import G = Gf256

  /** The locator vanishes at the inverse of the locator of the l-th byte, counted from the last. */
  ghost predicate RootAt(f: Poly, l: nat) {
    l < 255 && Eval(f, Alpha(255 - l)) == Zero
  }

  /** The places of all roots, also of those before the first byte of the word. */
  ghost function RootPlaces(f: Poly): set<nat> {
    set l: nat | l < 255 && RootAt(f, l)
  }

  lemma PlacesLocated(f: Poly)
    requires f != [] && f[0] == One
    ensures forall l: nat :: RootAt(f, l) <==> l in Locations(f, 255)
    ensures |RootPlaces(f)| == |Locations(f, 255)| < |f|
  {
    var locs := Locations(f, 255);
    forall l | RootAt(f, l)
      ensures l in locs
    {
      LocationsComplete(f, 255, l);
    }
    forall i | 0 <= i < |locs|
      ensures RootAt(f, locs[i])
    {
      assert IsLocation(f, locs[i]);
    }
    SetOfDistinct(locs, RootPlaces(f));
    LocationCount(f);
  }

  lemma {:induction false} SetOfDistinct(locs: seq<nat>, places: set<nat>)
    requires forall i, j :: 0 <= i < j < |locs| ==> locs[i] > locs[j]
    requires forall l :: l in places <==> l in locs
    ensures |places| == |locs|
  {
    if locs == [] {
      assert places == {};
    } else {
      assert locs[0] in places && locs[0] !in locs[1..];
      SetOfDistinct(locs[1..], places - {locs[0]});
    }
  }

  /** There is no root, or there are too many, or one lies outside a word of n bytes. */
  ghost predicate Hopeless(f: Poly, p: nat, n: nat) {
    RootPlaces(f) == {} || |RootPlaces(f)| > p || exists l: nat :: l >= n && RootAt(f, l)
  }

  lemma LocatedHopeless(f: Poly, p: nat, n: nat)
    requires f != [] && f[0] == One && |f| <= p + 1 <= 9
    ensures Located(f) == Locations(f, 255)
    ensures Hopeless(f, p, n) <==> !(0 < |Located(f)| <= p && AllBelow(Located(f), n))
  {
    PlacesLocated(f);
    var locs := Locations(f, 255);
    if !AllBelow(locs, n) {
      var i :| 0 <= i < |locs| && locs[i] >= n;
      assert locs[i] in locs && RootAt(f, locs[i]);
    }
  }

  /** Whatever was received, there are three answers: no errors exactly for a codeword; uncorrectable exactly if it is
      none and its locator is hopeless; corrected in all other cases. */
  lemma AnswerExactly(word: seq<Elt>, p: nat)
    requires |word| <= 255 && 1 <= p <= 8
    ensures var hopeless := Hopeless(Locator(Syndromes(word, p), 2 * p), p, |word|);
      && (Decode(word, p).0 == NoErrors <==> IsCodeword(word, p))
      && (Decode(word, p).0 == UncorrectableErrors <==> !IsCodeword(word, p) && hopeless)
    ensures Decode(word, p).0 != CorrectedErrors ==> Decode(word, p).1 == word
  {
    var s := Syndromes(word, p);
    LocatorShape(s);
    LocatedHopeless(Locator(s, 2 * p), p, |word|);
  }

  /** A word that is uncorrectable is too far from every codeword. */
  lemma UncorrectableIsFar(word: seq<Elt>, code: seq<Elt>, p: nat)
    requires |word| == |code| <= 255 && 1 <= p <= 8
    requires IsCodeword(code, p) && Decode(word, p).0 == UncorrectableErrors
    ensures 2 * Distance(word, code) > p
  {
    if 2 * Distance(word, code) <= p {
      DecodeCorrects(word, code, p);
    }
  }

  lemma CorrectedWord(word: seq<Elt>, p: nat, f: Poly, s: seq<Elt>)
    requires |word| <= 255 && 1 <= p <= 8 && Decode(word, p).0 == CorrectedErrors
    requires s == Syndromes(word, p) && f == Locator(s, 2 * p)
    ensures f != [] && f[0] == One && AllBelow(Locations(f, 255), |word|)
    ensures Decode(word, p).1 == Corrected(word, f, s, Locations(f, 255))
  {
    LocatorShape(s);
    LocatedHopeless(f, p, |word|);
  }

  /** What is corrected is changed at the roots only, by the value that the evaluator and the derivative give there. */
  lemma CorrectionExactly(word: seq<Elt>, p: nat, l: nat)
    requires |word| <= 255 && 1 <= p <= 8 && Decode(word, p).0 == CorrectedErrors && l < |word|
    ensures var s, i := Syndromes(word, p), |word| - 1 - l;
      IsErrorAt(Locator(s, 2 * p), s, l, Add(word[i], Decode(word, p).1[i]))
  {
    var s, out, i := Syndromes(word, p), Decode(word, p).1, |word| - 1 - l;
    var f := Locator(s, 2 * p);
    CorrectedWord(word, p, f, s);
    ErrorOfWord(word, f, s, l);
    assert Errors(word, out)[l] == Add(word[i], out[i]);
  }

  lemma ErrorOfWord(word: seq<Elt>, f: Poly, s: seq<Elt>, l: nat)
    requires f != [] && f[0] == One && AllBelow(Locations(f, 255), |word|) && l < |word| <= 255
    ensures IsErrorAt(f, s, l, Errors(word, Corrected(word, f, s, Locations(f, 255)))[l])
  {
    PlacesLocated(f);
    ErrorOfCorrection(word, f, s, Locations(f, 255), l);
    ValueIsError(f, s, l);
  }

  /** The error e at a place: none where there is no root, and else the evaluator is e times the derivative. Where that
      is zero, the tables take it for one. */
  ghost predicate IsErrorAt(f: Poly, s: seq<Elt>, l: nat, e: Elt) {
    if !RootAt(f, l) then e == Zero
    else
      var z := Alpha(255 - l);
      Mul(e, if Deriv(f, z) == Zero then One else Deriv(f, z)) == Eval(ConvAll(f, s), z)
  }

  lemma ValueIsError(f: Poly, s: seq<Elt>, l: nat)
    requires l < 255
    ensures IsErrorAt(f, s, l, if RootAt(f, l) then ErrorValue(f, s, l) else Zero)
  {
    var z := Alpha(255 - l);
    if Deriv(f, z) != Zero {
      ValueAtRoot(f, s, l);
    }
    MulOne(Eval(ConvAll(f, s), z));
  }

  // Eight zero bytes of message, and the parity bytes 1 and 2.

  lemma FarSyndromes()
    ensures Syndromes(Far(10), 2) == [Zero, Alpha(26)]
  {
    FarAt(10, Alpha(1));
    FarAt(10, Alpha(2));
    AddZero(Alpha(1));
    G.AlphaOfSix();
    AlphaByte(1);
    AlphaByte(2);
    AlphaByte(26);
    AddBytes(2, 4);
  }

  /** The only root lies three places before the first byte. */
  lemma FarIsHopeless()
    ensures Decode(Far(10), 2) == (UncorrectableErrors, Far(10))
  {
    var c := Alpha(26);
    FarSyndromes();
    AlphaNonzero(26);
    LocatorOfTwo(c);
    SquareAt(c, Alpha(242));
    AlphaPlus(242, 26);
    AlphaPlus(242, 268);
    AlphaPlus(255, 255);
    AlphaUnits();
    MulOne(One);
    AddZero(One);
    assert RootAt([One, Zero, c], 13);
    assert Syndrome(Far(10), 1) == c;
    AnswerExactly(Far(10), 2);
  }

  lemma FarBytes()
    ensures Far(10) == seq(8, _ => Elt(0)) + [Elt(1), Elt(2)]
  {
    G.AlphaOfSix();
    AlphaByte(1);
  }

  /** The decoder, run on these bytes. */
  method DecodeFar() returns (buf: array<Elt>, status: Status)
    ensures status == UncorrectableErrors && buf[..] == seq(8, _ => Elt(0)) + [Elt(1), Elt(2)]
  {
    FarBytes();
    FarIsHopeless();
    var fec := new F.Fec(2);
    buf := new Elt[10](_ => Elt(0));
    buf[8], buf[9] := Elt(1), Elt(2);
    assert buf[..10] == Far(10);
    status := fec.Decode(buf, 8, buf, 8);
    assert buf[..] == buf[..10];
  }
}
