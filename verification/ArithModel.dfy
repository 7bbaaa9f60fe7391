/**
 The adaptive model of the arithmetic coder: cumulative counts of the 256 byte values. The
 sequence holds the storage array, so that position k is the count totals[k - 1] of the source.
 */
module ArithModel {

  const SYMBOLS := 256
  const MAXIMUM_SCALE := 16383

  type Byte = b: int | 0 <= b < SYMBOLS

  ghost predicate Increasing(t: seq<int>) {
    forall i, j :: 0 <= i < j < |t| ==> t[i] < t[j]
  }

  /** Counts from zero, strictly increasing, with a total below the maximum. */
  ghost predicate ValidModel(t: seq<int>) {
    |t| == SYMBOLS + 2 && t[0] == 0 && Increasing(t) && t[SYMBOLS + 1] < MAXIMUM_SCALE
  }

  function Scale(t: seq<int>): int
    requires |t| == SYMBOLS + 2
  {
    t[SYMBOLS + 1]
  }

  function InitialTotals(): seq<int> {
    seq(SYMBOLS + 2, k => k)
  }

  /** Every count above the symbol grows by one. */
  function Bumped(t: seq<int>, c: Byte): (r: seq<int>)
    requires |t| == SYMBOLS + 2
    ensures |r| == |t|
  {
    seq(|t|, k requires 0 <= k < |t| => if k >= c + 2 then t[k] + 1 else t[k])
  }

  /** The first n counts after halving, which keeps them apart. */
  function Halved(t: seq<int>, n: nat): (r: seq<int>)
    requires 1 <= n <= |t|
    ensures |r| == n
  {
    if n == 1 then [t[0]]
    else
      var r := Halved(t, n - 1);
      var v := t[n - 1] / 2;
      r + [if v <= r[n - 2] then r[n - 2] + 1 else v]
  }

  function Updated(t: seq<int>, c: Byte): (r: seq<int>)
    requires |t| == SYMBOLS + 2
    ensures |r| == |t|
  {
    var b := Bumped(t, c);
    if Scale(b) == MAXIMUM_SCALE then Halved(b, |b|) else b
  }

  lemma {:induction false} HalvedBounds(t: seq<int>, n: nat)
    requires 1 <= n <= |t| && t[0] == 0 && Increasing(t)
    ensures Increasing(Halved(t, n)) && Halved(t, n)[0] == 0
    ensures 2 * Halved(t, n)[n - 1] <= t[n - 1] + n - 1
  {
    if n > 1 {
      HalvedBounds(t, n - 1);
      var r := Halved(t, n - 1);
      assert Halved(t, n)[..n - 1] == r;
    }
  }

  /** No count falls below its half, and halving is the least that keeps the counts apart. */
  lemma {:induction false} HalvedIsLeast(t: seq<int>, n: nat)
    requires 1 <= n <= |t| && t[0] == 0
    ensures forall k :: 0 <= k < n ==> Halved(t, n)[k] >= t[k] / 2
    ensures forall s: seq<int> ::
      |s| == n && s[0] >= 0 && Increasing(s) && AtLeastHalf(s, t) ==> forall k :: 0 <= k < n ==> Halved(t, n)[k] <= s[k]
  {
    if n > 1 {
      HalvedIsLeast(t, n - 1);
      var r := Halved(t, n - 1);
      assert Halved(t, n)[..n - 1] == r;
      forall s: seq<int> | |s| == n && s[0] >= 0 && Increasing(s) && AtLeastHalf(s, t)
        ensures forall k :: 0 <= k < n ==> Halved(t, n)[k] <= s[k]
      {
        var front := s[..n - 1];
        assert AtLeastHalf(front, t) && Increasing(front);
        assert r[n - 2] <= front[n - 2] < s[n - 1];
      }
    }
  }

  ghost predicate AtLeastHalf(s: seq<int>, t: seq<int>) {
    |s| <= |t| && forall k :: 0 <= k < |s| ==> s[k] >= t[k] / 2
  }

  /** How many of the scale belong to a symbol. */
  function ShareOf(t: seq<int>, c: Byte): int
    requires |t| == SYMBOLS + 2
  {
    t[c + 2] - t[c + 1]
  }

  /** A symbol that is coded has its share grow by one, and no other has; at the maximum the counts are halved. */
  lemma UpdateCounts(t: seq<int>, c: Byte)
    requires ValidModel(t)
    ensures Scale(t) + 1 < MAXIMUM_SCALE ==>
      && Updated(t, c)[0] == 0 && Updated(t, c)[1] == t[1]
      && forall d: Byte :: ShareOf(Updated(t, c), d) == ShareOf(t, d) + (if d == c then 1 else 0)
    ensures Scale(t) + 1 == MAXIMUM_SCALE ==>
      && AtLeastHalf(Updated(t, c), Bumped(t, c))
      && forall k :: 0 <= k < |t| ==> 2 * Updated(t, c)[k] <= Bumped(t, c)[k] + k
    ensures forall d: Byte :: ShareOf(Bumped(t, c), d) == ShareOf(t, d) + (if d == c then 1 else 0)
  {
    var b := Bumped(t, c);
    if Scale(b) == MAXIMUM_SCALE {
      HalvedIsLeast(b, |b|);
      forall k | 0 <= k < |t|
        ensures 2 * Updated(t, c)[k] <= b[k] + k
      {
        HalvedBounds(b, k + 1);
        HalvedPrefix(b, k + 1, |b|);
      }
    }
  }

  lemma {:induction false} HalvedPrefix(t: seq<int>, m: nat, n: nat)
    requires 1 <= m <= n <= |t|
    ensures Halved(t, n)[..m] == Halved(t, m)
  {
    if m < n {
      HalvedPrefix(t, m, n - 1);
      assert Halved(t, n)[..m] == Halved(t, n - 1)[..m];
    }
  }

  lemma InitialIsValid()
    ensures ValidModel(InitialTotals())
  {}

  /** Whatever is coded, the counts stay valid and the scale stays within bounds. */
  lemma UpdateKeepsValid(t: seq<int>, c: Byte)
    requires ValidModel(t)
    ensures ValidModel(Updated(t, c)) && 257 <= Scale(Updated(t, c)) <= 16382
  {
    var b := Bumped(t, c);
    if Scale(b) == MAXIMUM_SCALE {
      HalvedBounds(b, |b|);
    }
    ScaleAtLeast(Updated(t, c), SYMBOLS + 1);
  }

  lemma {:induction false} ScaleAtLeast(t: seq<int>, k: nat)
    requires k < |t| && t[0] == 0 && Increasing(t)
    ensures t[k] >= k
  {
    if k > 0 {
      ScaleAtLeast(t, k - 1);
    }
  }
}
