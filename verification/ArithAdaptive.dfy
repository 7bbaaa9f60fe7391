/** What the coder learns of a message, and what that does to its code. */
module ArithAdaptive {
  import opened ArithModel
  import opened ArithSpec

  /** How often a byte comes. */
  function Occurrences(msg: seq<Byte>, c: Byte): nat {
    if msg == [] then 0 else Occurrences(msg[..|msg| - 1], c) + (if msg[|msg| - 1] == c then 1 else 0)
  }

  /** How many bytes come that are smaller. */
  function Smaller(msg: seq<Byte>, c: int): nat {
    if msg == [] then 0 else Smaller(msg[..|msg| - 1], c) + (if msg[|msg| - 1] < c then 1 else 0)
  }

  lemma {:induction false} SmallerNext(msg: seq<Byte>, c: Byte)
    ensures Smaller(msg, c + 1) == Smaller(msg, c) + Occurrences(msg, c)
  {
    if msg != [] {
      SmallerNext(msg[..|msg| - 1], c);
    }
  }

  lemma {:induction false} SmallerAll(msg: seq<Byte>)
    ensures Smaller(msg, SYMBOLS) == |msg| && Smaller(msg, 0) == 0
  {
    if msg != [] {
      SmallerAll(msg[..|msg| - 1]);
    }
  }

  /** The model after some bytes. */
  ghost function ModelAfter(t: seq<int>, msg: seq<Byte>): (r: seq<int>)
    requires ValidModel(t)
    ensures ValidModel(r)
    decreases |msg|
  {
    if msg == [] then t else ModelAfter(Next(t, msg[0]), msg[1..])
  }

  /** A message in two parts: the second is coded from where the first leaves off. */
  lemma {:induction false} EncodeParts(e: Encoder, t: seq<int>, a: seq<Byte>, b: seq<Byte>)
    requires InRange(e.low, e.high) && Settled(e.low, e.high) && ValidModel(t)
    ensures EncodeAll(e, t, a + b) == EncodeAll(EncodeAll(e, t, a), ModelAfter(t, a), b)
    ensures ModelAfter(t, a + b) == ModelAfter(ModelAfter(t, a), b)
    decreases |a|
  {
    if a == [] {
      assert a + b == b;
    } else {
      assert (a + b)[0] == a[0] && (a + b)[1..] == a[1..] + b;
      EncodeParts(EncodeSymbol(e, t, a[0]), Next(t, a[0]), a[1..], b);
    }
  }

  lemma ModelNext(t: seq<int>, msg: seq<Byte>, c: Byte)
    requires ValidModel(t)
    ensures ModelAfter(t, msg + [c]) == Updated(ModelAfter(t, msg), c)
  {
    EncodeParts(START, t, msg, [c]);
    var u := ModelAfter(t, msg);
    assert [c][1..] == [];
    assert ModelAfter(u, [c]) == ModelAfter(Next(u, c), []);
  }

  /** The counts of a message: one for every byte value, and one for every byte that came. */
  ghost predicate Counts(t: seq<int>, msg: seq<Byte>) {
    && |t| == SYMBOLS + 2 && t[0] == 0
    && forall c: int :: 0 <= c <= SYMBOLS ==> t[c + 1] == c + 1 + Smaller(msg, c)
  }

  /** Until the scale reaches its maximum the model counts exactly. */
  lemma {:induction false} CountsMessage(msg: seq<Byte>)
    requires |msg| < 16126
    ensures ValidModel(InitialTotals()) && Counts(ModelAfter(InitialTotals(), msg), msg)
    ensures Scale(ModelAfter(InitialTotals(), msg)) == 257 + |msg|
    ensures forall c: Byte :: ShareOf(ModelAfter(InitialTotals(), msg), c) == 1 + Occurrences(msg, c)
  {
    InitialIsValid();
    SmallerAll(msg);
    if msg != [] {
      var front, last := msg[..|msg| - 1], msg[|msg| - 1];
      CountsMessage(front);
      assert msg == front + [last];
      ModelNext(InitialTotals(), front, last);
      var t := ModelAfter(InitialTotals(), front);
      SmallerAll(front);
      assert Updated(t, last) == Bumped(t, last);
    }
    forall c: Byte
      ensures ShareOf(ModelAfter(InitialTotals(), msg), c) == 1 + Occurrences(msg, c)
    {
      SmallerNext(msg, c);
    }
  }

  lemma EncodeNext(msg: seq<Byte>, c: Byte)
    ensures ValidModel(InitialTotals())
    ensures EncodeAll(START, InitialTotals(), msg + [c]) ==
      EncodeSymbol(EncodeAll(START, InitialTotals(), msg), ModelAfter(InitialTotals(), msg), c)
  {
    InitialIsValid();
    EncodeParts(START, InitialTotals(), msg, [c]);
    var e, t := EncodeAll(START, InitialTotals(), msg), ModelAfter(InitialTotals(), msg);
    assert [c][1..] == [];
    assert EncodeAll(e, t, [c]) == EncodeAll(EncodeSymbol(e, t, c), Next(t, c), []);
  }

  /** The range that belongs to own of the counts, out of total, behind those before it. */
  function NarrowedTo(e: Encoder, before: int, own: int, total: int): Encoder
    requires total > 0
  {
    var range := e.high - e.low + 1;
    e.(low := e.low + range * before / total, high := e.low + range * (before + own) / total - 1)
  }

  lemma NarrowedByCounts(e: Encoder, t: seq<int>, c: Byte, before: int, own: int, total: int)
    requires InRange(e.low, e.high) && Settled(e.low, e.high) && ValidModel(t)
    requires t[c + 1] == before && t[c + 2] == before + own && Scale(t) == total > 0
    ensures Narrowed(e, t, c) == NarrowedTo(e, before, own, total)
  {
    ShareIs(e.high - e.low + 1, before, total);
    ShareIs(e.high - e.low + 1, before + own, total);
  }

  /** A byte after some others has the code that its occurrences and those of smaller bytes give it. */
  ghost predicate IsCodedByCounts(e: Encoder, f: Encoder, msg: seq<Byte>, c: Byte) {
    var narrowed := NarrowedTo(e, 1 + c + Smaller(msg, c), 1 + Occurrences(msg, c), 257 + |msg|);
    InRange(narrowed.low, narrowed.high) && f == Settle(narrowed)
  }

  lemma CodedFrom(e: Encoder, t: seq<int>, msg: seq<Byte>, c: Byte)
    requires InRange(e.low, e.high) && Settled(e.low, e.high) && ValidModel(t)
    requires Counts(t, msg) && Scale(t) == 257 + |msg| && ShareOf(t, c) == 1 + Occurrences(msg, c)
    ensures IsCodedByCounts(e, EncodeSymbol(e, t, c), msg, c)
  {
    NarrowedByCounts(e, t, c, 1 + c + Smaller(msg, c), 1 + Occurrences(msg, c), 257 + |msg|);
  }

  /** A byte narrows the range to what its occurrences and those of smaller bytes make of it, among 257 and the bytes
      before it. */
  lemma CodedByCounts(msg: seq<Byte>, c: Byte)
    requires |msg| < 16126
    ensures ValidModel(InitialTotals())
    ensures
      var before, after := EncodeAll(START, InitialTotals(), msg), EncodeAll(START, InitialTotals(), msg + [c]);
      IsCodedByCounts(before, after, msg, c)
  {
    EncodeNext(msg, c);
    CountsMessage(msg);
    CodedFrom(EncodeAll(START, InitialTotals(), msg), ModelAfter(InitialTotals(), msg), msg, c);
  }

  // The length of the code.

  function Range(e: Encoder): int {
    e.high - e.low + 1
  }

  /** A symbol with n counts of s leaves more than n^2 / (s * (n + 1)) of the range. */
  lemma NarrowKeeps(range: int, lc: int, n: int, s: int)
    requires 0 <= lc && 0 < n && lc + n <= s < range
    ensures var r := range * (lc + n) / s - range * lc / s; range * (n * n) <= r * (s * (n + 1))
  {
    var q, p := range * lc / s, range * (lc + n) / s;
    assert range * (lc + n) == range * lc + range * n;
    assert q * s <= range * lc && range * (lc + n) < p * s + s;
    assert (p - q) * s == p * s - q * s;
    AtLeastCounts(range, lc, n, s);
    Squared(range, n, p - q, s);
  }

  lemma Squared(range: int, n: int, r: int, s: int)
    requires 0 < n <= r && 0 < s && range * n < r * s + s
    ensures range * (n * n) <= r * (s * (n + 1))
  {
    var x, y := range * n, r * s;
    MulMono(n, r, s);
    MulMono(x, y + s, n);
    assert (y + s) * n == y * n + s * n;
    assert y * n + y == y * (n + 1);
    assert x * n == range * (n * n) && y * (n + 1) == r * (s * (n + 1));
  }

  lemma AtLeastCounts(range: int, lc: int, n: int, s: int)
    requires 0 <= lc && 0 < n && lc + n <= s < range
    ensures range * (lc + n) / s - range * lc / s >= n
  {
    var q := range * lc / s;
    MulMono(s, range, n);
    assert (q + n) * s == q * s + s * n && range * (lc + n) == range * lc + range * n;
    DivAtLeast(range * (lc + n), s, q + n);
  }

  lemma NarrowedKeeps(e: Encoder, t: seq<int>, c: Byte)
    requires InRange(e.low, e.high) && Settled(e.low, e.high) && ValidModel(t)
    ensures var n := ShareOf(t, c);
      n > 0 && Range(e) * (n * n) <= Range(Narrowed(e, t, c)) * (Scale(t) * (n + 1))
  {
    SettledIsWide(e.low, e.high);
    NarrowKeeps(Range(e), t[c + 1], ShareOf(t, c), Scale(t));
    ShareIs(Range(e), t[c + 1], Scale(t));
    ShareIs(Range(e), t[c + 2], Scale(t));
  }

  lemma Doubled(range: int, n: nat)
    ensures 2 * range * Scaled(1, n) == range * Scaled(1, n + 1)
  {
    assert Scaled(1, n + 1) == 2 * Scaled(1, n);
  }

  /** Every shift doubles the range. */
  lemma {:induction false} SettleDoubles(e: Encoder)
    requires InRange(e.low, e.high)
    ensures Shifts(Settle(e)) >= Shifts(e)
    ensures Range(Settle(e)) == Range(e) * Scaled(1, Shifts(Settle(e)) - Shifts(e))
    decreases 0x10000 - (e.high - e.low)
  {
    if !Settled(e.low, e.high) {
      var f := ShiftEncoder(e);
      ShiftValues(e);
      ShiftBase(e);
      SettleDoubles(f);
      var n := Shifts(Settle(f)) - Shifts(f);
      assert Range(f) == 2 * Range(e);
      Doubled(Range(e), n);
    }
  }

  lemma {:induction false} PowerSum(m: nat, n: nat)
    ensures Scaled(1, m + n) == Scaled(1, m) * Scaled(1, n)
    ensures Scaled(1, n) > 0
  {
    if n > 0 {
      PowerSum(m, n - 1);
      assert Scaled(1, m) * (2 * Scaled(1, n - 1)) == 2 * (Scaled(1, m) * Scaled(1, n - 1));
    }
  }

  /** What the bytes could have been, and what they were: Possible / Taken is the product, over the message, of the
      total of the counts divided by n * n / (n + 1), for the count n of the byte that came. */
  function Possible(msg: seq<Byte>): nat {
    if msg == [] then 1
    else
      var front, last := msg[..|msg| - 1], msg[|msg| - 1];
      Possible(front) * ((257 + |front|) * (2 + Occurrences(front, last)))
  }

  function Taken(msg: seq<Byte>): nat {
    if msg == [] then 1
    else
      var front, last := msg[..|msg| - 1], msg[|msg| - 1];
      Taken(front) * ((1 + Occurrences(front, last)) * (1 + Occurrences(front, last)))
  }

  lemma Combine(a: int, q: int, nn: int, w: int, p: int, r: int, m: int, r1: int)
    requires 0 <= nn && 0 <= w && 0 <= p && a * q <= p * r && r * nn <= r1 * m
    ensures a * w * (q * nn) <= p * m * (r1 * w)
  {
    MulMono(a * q, p * r, nn);
    assert p * r * nn == p * (r * nn);
    MulMono(r * nn, r1 * m, p);
    assert p * (r * nn) == r * nn * p && r1 * m * p == p * m * r1;
    MulMono(a * q * nn, p * m * r1, w);
    assert a * q * nn * w == a * w * (q * nn) && p * m * r1 * w == p * m * (r1 * w);
  }

  lemma {:induction false} ShortSoFar(msg: seq<Byte>)
    requires |msg| < 16126
    ensures ValidModel(InitialTotals())
    ensures var f := EncodeAll(START, InitialTotals(), msg);
      Scaled(1, Shifts(f)) * 0x10000 * Taken(msg) <= Possible(msg) * Range(f)
  {
    InitialIsValid();
    if msg != [] {
      var front, last := msg[..|msg| - 1], msg[|msg| - 1];
      assert msg == front + [last];
      ShortSoFar(front);
      EncodeNext(front, last);
      CountsMessage(front);
      var e, t := EncodeAll(START, InitialTotals(), front), ModelAfter(InitialTotals(), front);
      ShortStep(e, t, last, Taken(front), Possible(front));
    }
  }

  lemma ShortStep(e: Encoder, t: seq<int>, c: Byte, taken: nat, possible: nat)
    requires InRange(e.low, e.high) && Settled(e.low, e.high) && ValidModel(t)
    requires Scaled(1, Shifts(e)) * 0x10000 * taken <= possible * Range(e)
    ensures var f, n := EncodeSymbol(e, t, c), ShareOf(t, c);
      Scaled(1, Shifts(f)) * 0x10000 * (taken * (n * n)) <= possible * (Scale(t) * (n + 1)) * Range(f)
  {
    var g, n := Narrowed(e, t, c), ShareOf(t, c);
    NarrowedKeeps(e, t, c);
    var k, w := ShiftsOf(e, g);
    Combine(Scaled(1, Shifts(e)) * 0x10000, taken, n * n, w, possible, Range(e), Scale(t) * (n + 1), Range(g));
  }

  lemma ShiftsOf(e: Encoder, g: Encoder) returns (k: nat, w: nat)
    requires InRange(g.low, g.high) && Shifts(g) == Shifts(e)
    ensures var f := Settle(g);
      Range(f) == Range(g) * w && Scaled(1, Shifts(f)) * 0x10000 == Scaled(1, Shifts(e)) * 0x10000 * w
  {
    SettleDoubles(g);
    k := Shifts(Settle(g)) - Shifts(g);
    PowerSum(Shifts(e), k);
    w := Scaled(1, k);
  }

  lemma FullRange(w: int, taken: int, possible: int, range: int)
    requires w * 0x10000 * taken <= possible * range && range <= 0x10000 && 0 <= possible
    ensures w * taken <= possible
  {
    MulMono(range, 0x10000, possible);
    assert w * 0x10000 * taken == 0x10000 * (w * taken);
  }

  lemma FlushedLength(e: Encoder)
    ensures |Flushed(e)| == Shifts(e) + 2
  {
  }

  lemma ShortInFull(f: Encoder, taken: nat, possible: nat)
    requires InRange(f.low, f.high) && Scaled(1, Shifts(f)) * 0x10000 * taken <= possible * Range(f)
    ensures |Flushed(f)| >= 2 && Scaled(1, |Flushed(f)| - 2) * taken <= possible
  {
    FlushedLength(f);
    FullRange(Scaled(1, Shifts(f)), taken, possible, Range(f));
  }

  /** The code has at most two bits more than the logarithm of Possible / Taken. */
  lemma CodeIsShort(msg: seq<Byte>)
    requires |msg| < 16126
    ensures |Encoded(msg)| >= 2
    ensures Scaled(1, |Encoded(msg)| - 2) * Taken(msg) <= Possible(msg)
  {
    ShortSoFar(msg);
    ShortInFull(EncodeAll(START, InitialTotals(), msg), Taken(msg), Possible(msg));
  }
}
