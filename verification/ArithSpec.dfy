/** The arithmetic coder as functions on bit sequences, and the theorem that decoding inverts encoding. */
module ArithSpec {
  import opened ArithModel

  // Sixteen-bit registers.

  function ToUint16(x: int): int {
    x % 0x10000
  }

  function ToInt16(x: int): int {
    (x + 0x8000) % 0x10000 - 0x8000
  }

  /** Bit 15 of a register. */
  predicate Top(x: int) {
    x >= 0x8000
  }

  /** Bit 14 of a register. */
  predicate Second(x: int) {
    x % 0x8000 >= 0x4000
  }

  // The product and the quotient in a share of a range stay behind the predicate Shown, so that
  // only the lemmas that need them meet nonlinear arithmetic.

  ghost predicate Shown(a: int, b: int, c: int) {
    true
  }

  ghost predicate IsSharing(f: (int, int, int) -> int) {
    forall r, c, s {:trigger Shown(r, c, s)} :: s > 0 ==> f(r, c, s) == r * c / s
  }

  ghost predicate IsCounting(f: (int, int, int) -> int) {
    forall x, s, r {:trigger Shown(x, s, r)} :: r > 0 ==> f(x, s, r) == ((x + 1) * s - 1) / r
  }

  ghost function Sharing(): (int, int, int) -> int {
    var f := (r: int, c: int, s: int) => if s > 0 then r * c / s else 0;
    assert IsSharing(f);
    var f :| IsSharing(f);
    f
  }

  ghost function Counting(): (int, int, int) -> int {
    var f := (x: int, s: int, r: int) => if r > 0 then ((x + 1) * s - 1) / r else 0;
    assert IsCounting(f);
    var f :| IsCounting(f);
    f
  }

  /** The count of the scale that offset x of the range stands for. */
  ghost function Count(x: int, scale: int, range: int): int {
    Counting()(x, scale, range)
  }

  lemma CountIs(x: int, scale: int, range: int)
    requires range > 0
    ensures Count(x, scale, range) == ((x + 1) * scale - 1) / range
  {
    assert Shown(x, scale, range);
  }

  /** range * count / scale. */
  ghost function Share(range: int, count: int, scale: int): int {
    Sharing()(range, count, scale)
  }

  lemma ShareIs(range: int, count: int, scale: int)
    requires scale > 0
    ensures Share(range, count, scale) == range * count / scale
  {
    assert Shown(range, count, scale);
  }

  /** The bounds of the range that belongs to the counts from lc to hc. */
  ghost function NarrowLow(low: int, high: int, lc: int, scale: int): int {
    low + Share(high - low + 1, lc, scale)
  }

  ghost function NarrowHigh(low: int, high: int, hc: int, scale: int): int {
    low + Share(high - low + 1, hc, scale) - 1
  }

  // The encoder.

  datatype Encoder = Encoder(low: int, high: int, pending: nat, out: seq<bool>)

  function Repeat(b: bool, n: nat): (r: seq<bool>)
    ensures |r| == n
  {
    if n == 0 then [] else Repeat(b, n - 1) + [b]
  }

  predicate InRange(low: int, high: int) {
    0 <= low <= high < 0x10000
  }

  /** Neither the top bits agree nor is the range about to close around the middle. */
  predicate Settled(low: int, high: int) {
    Top(high) != Top(low) && !(Second(low) && !Second(high))
  }

  function ShiftEncoder(e: Encoder): Encoder {
    if Top(e.high) == Top(e.low) then
      Encoder(ToUint16(2 * e.low), ToUint16(2 * e.high) + 1, 0,
              e.out + [Top(e.high)] + Repeat(!Top(e.high), e.pending))
    else
      Encoder(ToUint16(2 * (e.low % 0x4000)), ToUint16(2 * (e.high + 0x4000)) + 1,
              e.pending + 1, e.out)
  }

  /** What one shift does to the range: it doubles around the value that leaves the registers. */
  lemma ShiftValues(e: Encoder)
    requires InRange(e.low, e.high) && !Settled(e.low, e.high)
    ensures var f := ShiftEncoder(e);
      var gone := if Top(e.high) != Top(e.low) then 0x8000 else if Top(e.high) then 0x10000 else 0;
      f.low == 2 * e.low - gone && f.high == 2 * e.high + 1 - gone && InRange(f.low, f.high)
    ensures Top(e.high) != Top(e.low) ==> 0x4000 <= e.low < 0x8000 <= e.high < 0xC000
  {}

  function Settle(e: Encoder): (f: Encoder)
    requires InRange(e.low, e.high)
    ensures InRange(f.low, f.high) && Settled(f.low, f.high)
    decreases 0x10000 - (e.high - e.low)
  {
    if Settled(e.low, e.high) then e
    else
      ShiftValues(e);
      Settle(ShiftEncoder(e))
  }

  /** A settled range is wider than any scale. */
  lemma SettledIsWide(low: int, high: int)
    requires InRange(low, high) && Settled(low, high)
    ensures high - low + 1 >= 0x4002
  {}

  lemma MulMono(a: int, b: int, c: int)
    requires a <= b && 0 <= c
    ensures a * c <= b * c
  {}

  lemma DivAtLeast(b: int, s: int, k: int)
    requires s > 0 && k * s <= b
    ensures k <= b / s
  {
    var q := b / s;
    assert b == q * s + b % s;
    assert (q + 1) * s == q * s + s;
    if q + 1 <= k {
      MulMono(q + 1, k, s);
    }
  }

  lemma DivAtMost(b: int, s: int, k: int)
    requires s > 0 && b < (k + 1) * s
    ensures b / s <= k
  {
    var q := b / s;
    assert b == q * s + b % s;
    if k + 1 <= q {
      MulMono(k + 1, q, s);
    }
  }

  lemma QuotientBounds(range: int, lc: int, hc: int, scale: int)
    requires 0 <= lc < hc <= scale < range
    ensures 0 <= range * lc / scale < range * hc / scale <= range
  {
    var q := range * lc / scale;
    MulMono(0, lc, range);
    DivAtLeast(range * lc, scale, 0);
    assert range * lc >= q * scale by {
      assert range * lc == q * scale + range * lc % scale;
    }
    assert range * hc >= range * lc + range by {
      MulMono(lc + 1, hc, range);
      assert (lc + 1) * range == range * lc + range;
    }
    assert (q + 1) * scale == q * scale + scale;
    DivAtLeast(range * hc, scale, q + 1);
    MulMono(hc, scale, range);
    assert (range + 1) * scale == range * scale + scale;
    DivAtMost(range * hc, scale, range);
  }

  /** Every symbol keeps a nonempty part of a range that is wider than the scale. */
  lemma NarrowInRange(low: int, high: int, lc: int, hc: int, scale: int)
    requires InRange(low, high) && 0 <= lc < hc <= scale < high - low + 1
    ensures low <= NarrowLow(low, high, lc, scale) <= NarrowHigh(low, high, hc, scale) <= high
  {
    var range := high - low + 1;
    QuotientBounds(range, lc, hc, scale);
    ShareIs(range, lc, scale);
    ShareIs(range, hc, scale);
  }

  /** The range narrows to the symbol's counts and is shifted until it is settled again. */
  ghost function EncodeSymbol(e: Encoder, t: seq<int>, c: Byte): (f: Encoder)
    requires InRange(e.low, e.high) && Settled(e.low, e.high) && ValidModel(t)
    ensures InRange(f.low, f.high) && Settled(f.low, f.high)
  {
    Settle(Narrowed(e, t, c))
  }

  ghost function Narrowed(e: Encoder, t: seq<int>, c: int): (f: Encoder)
    requires InRange(e.low, e.high) && Settled(e.low, e.high) && ValidModel(t) && -1 <= c < SYMBOLS
    ensures e.low <= f.low <= f.high <= e.high
  {
    SettledIsWide(e.low, e.high);
    NarrowInRange(e.low, e.high, t[c + 1], t[c + 2], Scale(t));
    e.(low := NarrowLow(e.low, e.high, t[c + 1], Scale(t)),
       high := NarrowHigh(e.low, e.high, t[c + 2], Scale(t)))
  }

  function Next(t: seq<int>, c: Byte): (r: seq<int>)
    requires ValidModel(t)
    ensures ValidModel(r)
  {
    UpdateKeepsValid(t, c);
    Updated(t, c)
  }

  ghost function EncodeAll(e: Encoder, t: seq<int>, msg: seq<Byte>): (f: Encoder)
    requires InRange(e.low, e.high) && Settled(e.low, e.high) && ValidModel(t)
    ensures InRange(f.low, f.high) && Settled(f.low, f.high)
    decreases |msg|
  {
    if msg == [] then e
    else
      EncodeAll(EncodeSymbol(e, t, msg[0]), Next(t, msg[0]), msg[1..])
  }

  /** Two more bits, and the pending ones, that lead into the final range. */
  function Flushed(e: Encoder): seq<bool> {
    e.out + [Second(e.low)] + Repeat(!Second(e.low), e.pending + 1)
  }

  const START := Encoder(0, 0xFFFF, 0, [])

  /** The code of the bytes of msg. */
  ghost function Encoded(msg: seq<Byte>): seq<bool> {
    InitialIsValid();
    Flushed(EncodeAll(START, InitialTotals(), msg))
  }

  // The decoder.

  datatype Option<+T> = None | Some(value: T)

  datatype Decoder = Decoder(low: int, high: int, code: int, pos: nat)

  function Bit(b: bool): int {
    if b then 1 else 0
  }

  /** One shift of the three registers, with the next bit of the stream. */
  function ShiftDecoder(d: Decoder, bits: seq<bool>): Decoder
    requires d.pos < |bits|
  {
    var bit := Bit(bits[d.pos]);
    if Top(d.high) == Top(d.low) then
      Decoder(ToUint16(2 * d.low), ToUint16(2 * d.high) + 1, ToUint16(2 * d.code) + bit, d.pos + 1)
    else
      Decoder(ToUint16(2 * (d.low % 0x4000)), ToUint16(2 * (d.high + 0x4000)) + 1,
              ToUint16(2 * FlipSecond(d.code)) + bit, d.pos + 1)
  }

  /** Exclusive or with 0x4000. */
  function FlipSecond(x: int): int {
    if Second(x) then x - 0x4000 else x + 0x4000
  }

  function SettleDecoder(d: Decoder, bits: seq<bool>): Option<Decoder>
    decreases |bits| - d.pos
  {
    if Settled(d.low, d.high) then Some(d)
    else if d.pos >= |bits| then None
    else SettleDecoder(ShiftDecoder(d, bits), bits)
  }

  /** The last symbol up to c whose counts start at or below the count; -1 if there is none. */
  function SymbolFrom(t: seq<int>, count: int, c: int): (r: int)
    requires |t| == SYMBOLS + 2 && -1 <= c < SYMBOLS
    ensures -1 <= r <= c
  {
    if c >= 0 && count < t[c + 1] then SymbolFrom(t, count, c - 1) else c
  }

  ghost function WaitingSymbol(d: Decoder, t: seq<int>): (c: int)
    requires |t| == SYMBOLS + 2
    ensures -1 <= c < SYMBOLS
  {
    SymbolFrom(t, Count(d.code - d.low, Scale(t), d.high - d.low + 1), SYMBOLS - 1)
  }

  /** The symbol's range becomes the decoder's range. */
  ghost function Removed(d: Decoder, t: seq<int>, c: int): Decoder
    requires |t| == SYMBOLS + 2 && -1 <= c < SYMBOLS
  {
    d.(low := NarrowLow(d.low, d.high, t[c + 1], Scale(t)), high := NarrowHigh(d.low, d.high, t[c + 2], Scale(t)))
  }

  /** A symbol as a byte: the one below the first reads as 255. */
  function AsByte(c: int): Byte
    requires -1 <= c < SYMBOLS
  {
    if c < 0 then 255 else c
  }

  /** n bytes, and the removal of one symbol more; none if the stream ends before that. */
  ghost function DecodeAll(d: Decoder, t: seq<int>, bits: seq<bool>, n: nat): Option<seq<Byte>>
    requires ValidModel(t)
    decreases n
  {
    var c := WaitingSymbol(d, t);
    var settled := SettleDecoder(Removed(d, t, c), bits);
    if settled == None then None
    else if n == 0 then Some([])
    else
      var rest := DecodeAll(settled.value, Next(t, AsByte(c)), bits, n - 1);
      if rest == None then None else Some([AsByte(c)] + rest.value)
  }

  /** The value of bits, highest first. */
  function Val(bits: seq<bool>): (v: nat) {
    if bits == [] then 0 else 2 * Val(bits[..|bits| - 1]) + Bit(bits[|bits| - 1])
  }

  /** The n bytes that a stream of bits stands for. */
  ghost function Decoded(bits: seq<bool>, n: nat): Option<seq<Byte>> {
    InitialIsValid();
    if |bits| < 16 then None
    else DecodeAll(Decoder(0, 0xFFFF, Val(bits[..16]), 16), InitialTotals(), bits, n)
  }

  // The number that the encoder has fixed so far: its bits, and the pending ones as 0111... or
  // 1000..., in units of the registers.

  /** v * 2^n. */
  function Scaled(v: int, n: nat): int {
    if n == 0 then v else 2 * Scaled(v, n - 1)
  }

  function Shifts(e: Encoder): nat {
    |e.out| + e.pending
  }

  function Base(e: Encoder): int {
    Scaled(Val(e.out), e.pending) * 0x10000 + (Scaled(1, e.pending) - 1) * 0x8000
  }

  lemma {:induction false} ScaledDouble(v: int, n: nat)
    ensures Scaled(2 * v, n) == 2 * Scaled(v, n)
    ensures Scaled(2 * v + 1, n) == 2 * Scaled(v, n) + Scaled(1, n)
  {
    if n > 0 {
      ScaledDouble(v, n - 1);
    }
  }

  lemma {:induction false} ValConcat(a: seq<bool>, b: seq<bool>)
    ensures Val(a + b) == Scaled(Val(a), |b|) + Val(b)
    ensures Val(b) < Scaled(1, |b|)
  {
    if b == [] {
      assert a + b == a;
    } else {
      ValConcat(a, b[..|b| - 1]);
      assert (a + b)[..|a + b| - 1] == a + b[..|b| - 1];
    }
  }

  lemma {:induction false} ValRepeat(m: bool, n: nat)
    ensures Val(Repeat(m, n)) == if m then Scaled(1, n) - 1 else 0
  {
    if n > 0 {
      ValRepeat(m, n - 1);
      assert Repeat(m, n)[..n - 1] == Repeat(m, n - 1);
    }
  }

  lemma ValSnoc(out: seq<bool>, m: bool)
    ensures Val(out + [m]) == 2 * Val(out) + Bit(m)
  {
    assert (out + [m])[..|out|] == out;
  }

  /** A bit and its pending opposites. */
  lemma ValEmitted(out: seq<bool>, m: bool, n: nat)
    ensures Val(out + [m] + Repeat(!m, n))
         == 2 * Scaled(Val(out), n) + Scaled(1, n) - (if m then 0 else 1)
  {
    var v, w := Val(out), Val(out + [m]);
    ValSnoc(out, m);
    ScaledDouble(v, n);
    assert Scaled(w, n) == 2 * Scaled(v, n) + (if m then Scaled(1, n) else 0);
    ValConcat(out + [m], Repeat(!m, n));
    ValRepeat(!m, n);
  }

  function Gone(e: Encoder): int {
    if Top(e.high) != Top(e.low) then 0x8000 else if Top(e.high) then 0x10000 else 0
  }

  lemma ShiftBase(e: Encoder)
    requires InRange(e.low, e.high) && !Settled(e.low, e.high)
    ensures Base(ShiftEncoder(e)) == 2 * Base(e) + Gone(e)
    ensures Shifts(ShiftEncoder(e)) == Shifts(e) + 1
  {
    if Top(e.high) == Top(e.low) {
      ValEmitted(e.out, Top(e.high), e.pending);
    }
  }

  /** The first bits of the stream lie in the encoder's range. */
  ghost predicate Inside(e: Encoder, bits: seq<bool>) {
    && Shifts(e) + 16 <= |bits|
    && Base(e) + e.low <= Val(bits[..Shifts(e) + 16]) <= Base(e) + e.high
  }

  lemma ValPrefix(bits: seq<bool>, n: nat)
    requires n < |bits|
    ensures Val(bits[..n + 1]) == 2 * Val(bits[..n]) + Bit(bits[n])
  {
    assert bits[..n + 1][..n] == bits[..n];
  }

  lemma ShiftBack(e: Encoder, bits: seq<bool>)
    requires InRange(e.low, e.high) && !Settled(e.low, e.high) && Inside(ShiftEncoder(e), bits)
    ensures Inside(e, bits)
  {
    ShiftValues(e);
    ShiftBase(e);
    ValPrefix(bits, Shifts(e) + 16);
  }

  lemma {:induction false} SettleBack(e: Encoder, bits: seq<bool>)
    requires InRange(e.low, e.high) && Inside(Settle(e), bits)
    ensures Inside(e, bits)
    decreases 0x10000 - (e.high - e.low)
  {
    if !Settled(e.low, e.high) {
      ShiftValues(e);
      SettleBack(ShiftEncoder(e), bits);
      ShiftBack(e, bits);
    }
  }

  lemma NarrowedInside(e: Encoder, t: seq<int>, c: Byte, bits: seq<bool>)
    requires InRange(e.low, e.high) && Settled(e.low, e.high) && ValidModel(t)
    requires Inside(Narrowed(e, t, c), bits)
    ensures Inside(e, bits)
  {}

  /** A stream in the final range is in all ranges before it. */
  lemma {:induction false} EncodeBack(e: Encoder, t: seq<int>, msg: seq<Byte>, bits: seq<bool>)
    requires InRange(e.low, e.high) && Settled(e.low, e.high) && ValidModel(t)
    requires Inside(EncodeAll(e, t, msg), bits)
    ensures Inside(e, bits)
    ensures msg != [] ==> Inside(EncodeSymbol(e, t, msg[0]), bits) && Inside(Narrowed(e, t, msg[0]), bits)
    decreases |msg|
  {
    if msg != [] {
      var f := EncodeSymbol(e, t, msg[0]);
      assert EncodeAll(e, t, msg) == EncodeAll(f, Next(t, msg[0]), msg[1..]);
      EncodeBack(f, Next(t, msg[0]), msg[1..], bits);
      SettleBack(Narrowed(e, t, msg[0]), bits);
      NarrowedInside(e, t, msg[0], bits);
    }
  }

  lemma ScaledTwice(v: int, n: nat)
    ensures Scaled(v, n + 2) == 4 * Scaled(v, n)
  {}

  lemma FourteenBits(v: int)
    ensures Scaled(v, 14) == 0x4000 * v
  {
    ScaledTwice(v, 0);
    ScaledTwice(v, 2);
    ScaledTwice(v, 4);
    ScaledTwice(v, 6);
    ScaledTwice(v, 8);
    ScaledTwice(v, 10);
    ScaledTwice(v, 12);
  }

  /** The value of the flushed bits and fourteen more. */
  lemma FlushedValue(e: Encoder, tail: seq<bool>)
    requires |tail| == 14
    ensures Val(Flushed(e) + tail) == Base(e) + (if Second(e.low) then 0x8000 else 0x4000) + Val(tail)
    ensures Val(tail) < 0x4000
  {
    ValEmitted(e.out, Second(e.low), e.pending + 1);
    ValConcat(Flushed(e), tail);
    FourteenBits(Val(Flushed(e)));
    FourteenBits(1);
  }

  /** The two final bits lead into the final range, whatever the bits after them are. */
  lemma FlushInside(e: Encoder, tail: seq<bool>)
    requires InRange(e.low, e.high) && Settled(e.low, e.high) && |tail| >= 14
    ensures Inside(e, Flushed(e) + tail)
  {
    FlushedValue(e, tail[..14]);
    assert (Flushed(e) + tail)[..Shifts(e) + 16] == Flushed(e) + tail[..14];
  }

  // The decoder's registers follow the encoder's.

  ghost function Follower(e: Encoder, bits: seq<bool>): Decoder
    requires Inside(e, bits)
  {
    Decoder(e.low, e.high, Val(bits[..Shifts(e) + 16]) - Base(e), Shifts(e) + 16)
  }

  lemma ShiftCode(e: Encoder, code: int, bit: int)
    requires InRange(e.low, e.high) && !Settled(e.low, e.high) && e.low <= code <= e.high && 0 <= bit <= 1
    ensures ToUint16(2 * (if Top(e.high) == Top(e.low) then code else FlipSecond(code))) + bit
         == 2 * code - Gone(e) + bit
  {
    ShiftValues(e);
  }

  lemma ShiftFollows(e: Encoder, bits: seq<bool>)
    requires InRange(e.low, e.high) && !Settled(e.low, e.high) && Inside(ShiftEncoder(e), bits)
    ensures Inside(e, bits)
    ensures ShiftDecoder(Follower(e, bits), bits) == Follower(ShiftEncoder(e), bits)
  {
    ShiftBack(e, bits);
    ShiftBase(e);
    var n := Shifts(e) + 16;
    ValPrefix(bits, n);
    ShiftCode(e, Val(bits[..n]) - Base(e), Bit(bits[n]));
  }

  lemma {:induction false} SettleFollows(e: Encoder, bits: seq<bool>)
    requires InRange(e.low, e.high) && Inside(Settle(e), bits)
    ensures Inside(e, bits)
    ensures SettleDecoder(Follower(e, bits), bits) == Some(Follower(Settle(e), bits))
    decreases 0x10000 - (e.high - e.low)
  {
    if !Settled(e.low, e.high) {
      ShiftValues(e);
      SettleBack(ShiftEncoder(e), bits);
      ShiftFollows(e, bits);
      SettleFollows(ShiftEncoder(e), bits);
    }
  }

  /** An offset reaches the share of k counts exactly if its count reaches k. */
  lemma CountReaches(x: int, k: int, scale: int, range: int)
    requires scale > 0 && range > 0
    ensures k <= Count(x, scale, range) <==> Share(range, k, scale) <= x
  {
    CountIs(x, scale, range);
    ShareIs(range, k, scale);
    var n := (x + 1) * scale - 1;
    assert range * k == k * range;
    if k * range <= n {
      DivAtLeast(n, range, k);
      DivAtMost(range * k, scale, x);
    } else {
      assert n < (k - 1 + 1) * range;
      DivAtMost(n, range, k - 1);
      DivAtLeast(range * k, scale, x + 1);
    }
  }

  lemma {:induction false} SymbolFound(t: seq<int>, count: int, c: int, from: int)
    requires |t| == SYMBOLS + 2 && Increasing(t) && -1 <= c <= from < SYMBOLS
    requires t[c + 1] <= count < t[c + 2]
    ensures SymbolFrom(t, count, from) == c
    decreases from
  {
    if c < from {
      assert t[c + 2] <= t[from + 1];
      SymbolFound(t, count, c, from - 1);
    }
  }

  /** The decoder sees the symbol that the encoder's range was narrowed to. */
  lemma SymbolFollows(e: Encoder, t: seq<int>, c: Byte, bits: seq<bool>)
    requires InRange(e.low, e.high) && Settled(e.low, e.high) && ValidModel(t)
    requires Inside(e, bits) && Inside(Narrowed(e, t, c), bits)
    ensures WaitingSymbol(Follower(e, bits), t) == c
    ensures Removed(Follower(e, bits), t, c) == Follower(Narrowed(e, t, c), bits)
  {
    var d := Follower(e, bits);
    var x, range := d.code - d.low, d.high - d.low + 1;
    assert Scale(t) > 0;
    CountReaches(x, t[c + 1], Scale(t), range);
    CountReaches(x, t[c + 2], Scale(t), range);
    SymbolFound(t, Count(x, Scale(t), range), c, SYMBOLS - 1);
  }

  lemma DecodeStep(d: Decoder, t: seq<int>, bits: seq<bool>, n: nat, c: Byte, next: Decoder, rest: seq<Byte>)
    requires ValidModel(t) && WaitingSymbol(d, t) == c
    requires SettleDecoder(Removed(d, t, c), bits) == Some(next)
    requires n > 0 ==> DecodeAll(next, Next(t, c), bits, n - 1) == Some(rest)
    ensures DecodeAll(d, t, bits, n) == Some(if n == 0 then [] else [c] + rest)
  {}

  /** One symbol: the decoder names it and its registers move as the encoder's do. */
  lemma SymbolStep(e: Encoder, t: seq<int>, c: Byte, bits: seq<bool>)
    requires InRange(e.low, e.high) && Settled(e.low, e.high) && ValidModel(t)
    requires Inside(EncodeSymbol(e, t, c), bits)
    ensures Inside(e, bits) && WaitingSymbol(Follower(e, bits), t) == c
    ensures SettleDecoder(Removed(Follower(e, bits), t, c), bits)
         == Some(Follower(EncodeSymbol(e, t, c), bits))
  {
    SettleBack(Narrowed(e, t, c), bits);
    NarrowedInside(e, t, c, bits);
    SymbolFollows(e, t, c, bits);
    SettleFollows(Narrowed(e, t, c), bits);
  }

  lemma DecodeFirst(e: Encoder, t: seq<int>, c: Byte, msg: seq<Byte>, n: nat, bits: seq<bool>)
    requires InRange(e.low, e.high) && Settled(e.low, e.high) && ValidModel(t)
    requires Inside(EncodeSymbol(e, t, c), bits)
    requires n > 0 ==> DecodeAll(Follower(EncodeSymbol(e, t, c), bits), Next(t, c), bits, n - 1) == Some(msg)
    ensures Inside(e, bits)
    ensures DecodeAll(Follower(e, bits), t, bits, n) == Some(if n == 0 then [] else [c] + msg)
  {
    SymbolStep(e, t, c, bits);
    DecodeStep(Follower(e, bits), t, bits, n, c, Follower(EncodeSymbol(e, t, c), bits), msg);
  }

  lemma EncodeFirst(e: Encoder, t: seq<int>, msg: seq<Byte>, bits: seq<bool>)
    requires InRange(e.low, e.high) && Settled(e.low, e.high) && ValidModel(t)
    requires msg != [] && Inside(EncodeAll(e, t, msg), bits)
    ensures Inside(EncodeSymbol(e, t, msg[0]), bits)
    ensures Inside(EncodeAll(EncodeSymbol(e, t, msg[0]), Next(t, msg[0]), msg[1..]), bits)
  {
    EncodeBack(e, t, msg, bits);
  }

  lemma {:induction false} DecodeFollows(e: Encoder, t: seq<int>, msg: seq<Byte>, last: Byte, bits: seq<bool>)
    requires InRange(e.low, e.high) && Settled(e.low, e.high) && ValidModel(t)
    requires Inside(EncodeAll(e, t, msg + [last]), bits)
    ensures Inside(e, bits)
    ensures DecodeAll(Follower(e, bits), t, bits, |msg|) == Some(msg)
    decreases |msg|
  {
    var all := msg + [last];
    EncodeFirst(e, t, all, bits);
    if msg == [] {
      assert all[0] == last;
      DecodeFirst(e, t, last, [], 0, bits);
    } else {
      assert all[0] == msg[0] && all[1..] == msg[1..] + [last];
      DecodeFollows(EncodeSymbol(e, t, msg[0]), Next(t, msg[0]), msg[1..], last, bits);
      DecodeFirst(e, t, msg[0], msg[1..], |msg|, bits);
      assert [msg[0]] + msg[1..] == msg;
    }
  }

  /** Decoding the code of a message returns it, whatever follows the code in the stream. */
  lemma RoundTrip(msg: seq<Byte>, last: Byte, tail: seq<bool>)
    requires |tail| >= 14
    ensures Decoded(Encoded(msg + [last]) + tail, |msg|) == Some(msg)
  {
    InitialIsValid();
    var e := EncodeAll(START, InitialTotals(), msg + [last]);
    FlushInside(e, tail);
    DecodeFollows(START, InitialTotals(), msg, last, Flushed(e) + tail);
  }
}
