/** The arithmetic coder over its registers, its table of counts and its bit buffers. */
module ArithCode {
  import opened ArithModel
  import opened ArithSpec
  import opened BitStream
  import opened BitBuffers

  // The adaptive model.

  method ModelInit(storage: array<int>)
    requires storage.Length == SYMBOLS + 2
    modifies storage
    ensures storage[..] == InitialTotals()
  {
    for k := 0 to SYMBOLS + 2
      invariant forall j :: 0 <= j < k ==> storage[j] == j
    {
      storage[k] := k;
    }
  }

  method Bump(storage: array<int>, symbol: Byte)
    requires storage.Length == SYMBOLS + 2
    modifies storage
    ensures storage[..] == Bumped(old(storage[..]), symbol)
  {
    ghost var t := storage[..];
    for k := symbol + 2 to SYMBOLS + 2
      invariant forall j :: 0 <= j < k ==> storage[j] == if j >= symbol + 2 then t[j] + 1 else t[j]
      invariant forall j :: k <= j < SYMBOLS + 2 ==> storage[j] == t[j]
    {
      storage[k] := storage[k] + 1;
    }
    assert storage[..] == Bumped(t, symbol);
  }

  method Halve(storage: array<int>)
    requires storage.Length == SYMBOLS + 2
    modifies storage
    ensures storage[..] == Halved(old(storage[..]), SYMBOLS + 2)
  {
    ghost var t := storage[..];
    for k := 1 to SYMBOLS + 2
      invariant storage[..k] == Halved(t, k)
      invariant forall j :: k <= j < SYMBOLS + 2 ==> storage[j] == t[j]
    {
      assert storage[..k][k - 1] == storage[k - 1];
      storage[k] := storage[k] / 2;
      if storage[k] <= storage[k - 1] {
        storage[k] := storage[k - 1] + 1;
      }
      assert storage[..k + 1] == storage[..k] + [storage[k]];
    }
    assert storage[..] == storage[..SYMBOLS + 2];
  }

  method UpdateModel(storage: array<int>, symbol: Byte)
    requires storage.Length == SYMBOLS + 2
    modifies storage
    ensures storage[..] == Updated(old(storage[..]), symbol)
  {
    Bump(storage, symbol);
    if storage[SYMBOLS + 1] == MAXIMUM_SCALE {
      Halve(storage);
    }
  }

  // Register arithmetic.

  lemma Wrap(low: int, v: int)
    requires 0 <= low < 0x10000 && 0 <= v < 0x10000 && low + v < 0x10000
    ensures ToUint16(low + ToInt16(v)) == low + v
    ensures ToUint16(low + ToUint16(v)) == low + v
  {}

  /** Products of a range and a count fit a 32-bit integer. */
  lemma NoOverflow(range: int, count: int)
    requires 0 <= range <= 0x10000 && 0 <= count <= MAXIMUM_SCALE
    ensures 0 <= range * count < 0x8000_0000
  {
    MulMono(range, 0x10000, count);
    MulMono(0, range, count);
  }

  /** The new bounds, as the encoder computes them with 16-bit casts. */
  method NarrowBounds(low: int, high: int, lc: int, hc: int, scale: int) returns (low': int, high': int)
    requires InRange(low, high) && 0 <= lc < hc <= scale < high - low + 1 && scale <= MAXIMUM_SCALE
    ensures low' == NarrowLow(low, high, lc, scale) && high' == NarrowHigh(low, high, hc, scale)
    ensures low <= low' <= high' <= high
  {
    var range := high - low + 1;
    NarrowInRange(low, high, lc, hc, scale);
    ShareIs(range, lc, scale);
    ShareIs(range, hc, scale);
    NoOverflow(range, lc);
    NoOverflow(range, hc);
    var top, bottom := range * hc / scale - 1, range * lc / scale;
    Wrap(low, top);
    Wrap(low, bottom);
    high' := ToUint16(low + ToInt16(top));
    low' := ToUint16(low + ToInt16(bottom));
  }

  lemma {:induction false} SettleGrows(e: Encoder)
    requires InRange(e.low, e.high)
    ensures |e.out| <= |Settle(e).out|
    ensures !Settled(e.low, e.high) ==> |ShiftEncoder(e).out| <= |Settle(e).out|
    decreases 0x10000 - (e.high - e.low)
  {
    if !Settled(e.low, e.high) {
      ShiftValues(e);
      SettleGrows(ShiftEncoder(e));
    }
  }

  lemma RepeatMore(b: bool, n: nat)
    ensures Repeat(b, n + 1) == Repeat(b, n) + [b]
  {}

  class ArithEncoder {
    var low: int
    var high: int
    var underflow: nat
    const writer: BitWriter

    constructor (out: array<Byte8>)
      requires out.Length > 0
      modifies out
      ensures fresh(writer) && writer.buf == out && writer.Valid() && State() == START
    {
      low := 0;
      high := 0xFFFF;
      underflow := 0;
      writer := new BitWriter(out);
    }

    ghost function State(): Encoder
      reads this, writer
    {
      Encoder(low, high, underflow, writer.bits)
    }

    /** The pending bits, all alike. */
    method PutPending(bit: bool)
      requires writer.Valid() && (|writer.bits| + underflow) / 8 < writer.buf.Length
      modifies this`underflow, writer, writer.buf
      ensures writer.Valid() && underflow == 0
      ensures writer.bits == old(writer.bits) + Repeat(bit, old(underflow))
    {
      ghost var n, put, before := underflow, 0, writer.bits;
      while underflow > 0
        invariant writer.Valid() && put + underflow == n
        invariant writer.bits == before + Repeat(bit, put)
      {
        RepeatMore(bit, put);
        writer.Put(bit);
        put := put + 1;
        underflow := underflow - 1;
      }
    }

    /** One turn of the normalisation. */
    method Shift()
      requires writer.Valid() && InRange(low, high) && !Settled(low, high)
      requires |ShiftEncoder(State()).out| / 8 < writer.buf.Length
      modifies this, writer, writer.buf
      ensures writer.Valid() && State() == ShiftEncoder(old(State()))
    {
      if Top(high) == Top(low) {
        writer.Put(Top(high));
        PutPending(!Top(high));
      } else {
        underflow := underflow + 1;
        low := low % 0x4000;
        high := high + 0x4000;
      }
      low := ToUint16(2 * low);
      high := ToUint16(2 * high) + 1;
    }

    method Normalise()
      requires writer.Valid() && InRange(low, high)
      requires |Settle(State()).out| / 8 < writer.buf.Length
      modifies this, writer, writer.buf
      ensures writer.Valid() && State() == Settle(old(State()))
    {
      ghost var goal := Settle(State());
      while !Settled(low, high)
        invariant writer.Valid() && InRange(low, high) && Settle(State()) == goal
        decreases 0x10000 - (high - low)
      {
        SettleGrows(State());
        ShiftValues(State());
        Shift();
      }
    }

    /** A symbol, given by its counts. */
    method EncodeSymbol(storage: array<int>, c: Byte)
      requires storage.Length == SYMBOLS + 2 && ValidModel(storage[..])
      requires writer.Valid() && InRange(low, high) && Settled(low, high)
      requires |ArithSpec.EncodeSymbol(State(), storage[..], c).out| / 8 < writer.buf.Length
      modifies this, writer, writer.buf
      ensures writer.Valid() && State() == ArithSpec.EncodeSymbol(old(State()), old(storage[..]), c)
    {
      ghost var t := storage[..];
      assert t[c + 1] == storage[c + 1] && t[c + 2] == storage[c + 2] && t[SYMBOLS + 1] == storage[SYMBOLS + 1];
      SettledIsWide(low, high);
      low, high := NarrowBounds(low, high, storage[c + 1], storage[c + 2], storage[SYMBOLS + 1]);
      Normalise();
    }

    method Flush()
      requires writer.Valid() && |Flushed(State())| / 8 < writer.buf.Length
      modifies this, writer, writer.buf
      ensures writer.Valid() && writer.bits == Flushed(old(State()))
    {
      writer.Put(Second(low));
      underflow := underflow + 1;
      PutPending(!Second(low));
    }
  }

  lemma {:induction false} EncodeAllGrows(e: Encoder, t: seq<int>, msg: seq<Byte>)
    requires InRange(e.low, e.high) && Settled(e.low, e.high) && ValidModel(t)
    ensures |e.out| <= |EncodeAll(e, t, msg).out|
    ensures msg != [] ==> |ArithSpec.EncodeSymbol(e, t, msg[0]).out| <= |EncodeAll(e, t, msg).out|
    decreases |msg|
  {
    if msg != [] {
      SettleGrows(Narrowed(e, t, msg[0]));
      EncodeAllGrows(ArithSpec.EncodeSymbol(e, t, msg[0]), Next(t, msg[0]), msg[1..]);
    }
  }

  /** The coder's position in a message: the rest of it leads to the same final state. */
  ghost predicate Leads(e: Encoder, t: seq<int>, rest: seq<Byte>, goal: Encoder) {
    InRange(e.low, e.high) && Settled(e.low, e.high) && ValidModel(t) && EncodeAll(e, t, rest) == goal
  }

  lemma LeadsOn(e: Encoder, t: seq<int>, rest: seq<Byte>, goal: Encoder)
    requires Leads(e, t, rest, goal) && rest != []
    ensures |ArithSpec.EncodeSymbol(e, t, rest[0]).out| <= |goal.out|
    ensures Leads(ArithSpec.EncodeSymbol(e, t, rest[0]), Updated(t, rest[0]), rest[1..], goal)
  {
    EncodeAllGrows(e, t, rest);
  }

  lemma LastSymbol(e: Encoder, t: seq<int>, c: Byte, goal: Encoder)
    requires Leads(e, t, [c], goal)
    ensures ArithSpec.EncodeSymbol(e, t, c) == goal
  {
    assert [c][1..] == [];
    assert EncodeAll(ArithSpec.EncodeSymbol(e, t, c), Next(t, c), []) == goal;
  }

  /** A byte is coded with the counts before it, and then counted. */
  method EncodeByte(coder: ArithEncoder, storage: array<int>, c: Byte, ghost rest: seq<Byte>, ghost goal: Encoder)
    requires storage.Length == SYMBOLS + 2 && rest != [] && rest[0] == c && coder.writer.Valid()
    requires Leads(coder.State(), storage[..], rest, goal) && |goal.out| / 8 < coder.writer.buf.Length
    requires storage as object != coder.writer.buf
    modifies storage, coder, coder.writer, coder.writer.buf
    ensures coder.writer.Valid() && Leads(coder.State(), storage[..], rest[1..], goal)
  {
    LeadsOn(coder.State(), storage[..], rest, goal);
    coder.EncodeSymbol(storage, c);
    UpdateModel(storage, c);
  }

  method EncodeLastByte(coder: ArithEncoder, storage: array<int>, c: Byte, ghost goal: Encoder)
    requires storage.Length == SYMBOLS + 2 && coder.writer.Valid()
    requires Leads(coder.State(), storage[..], [c], goal) && |goal.out| / 8 < coder.writer.buf.Length
    modifies coder, coder.writer, coder.writer.buf
    ensures coder.writer.Valid() && coder.State() == goal
  {
    LastSymbol(coder.State(), storage[..], c, goal);
    coder.EncodeSymbol(storage, c);
  }

  method EncodeMessage(coder: ArithEncoder, storage: array<int>, all: seq<Byte>, ghost goal: Encoder)
    requires storage.Length == SYMBOLS + 2 && all != [] && coder.writer.Valid()
    requires Leads(coder.State(), storage[..], all, goal)
    requires |goal.out| / 8 < coder.writer.buf.Length && storage as object != coder.writer.buf
    modifies storage, coder, coder.writer, coder.writer.buf
    ensures coder.writer.Valid() && coder.State() == goal
  {
    var i := 0;
    assert all[0..] == all;
    while i < |all| - 1
      invariant i < |all| && coder.writer.Valid()
      invariant Leads(coder.State(), storage[..], all[i..], goal)
    {
      EncodeByte(coder, storage, all[i], all[i..], goal);
      assert all[i..][1..] == all[i + 1..];
      i := i + 1;
    }
    assert all[i..] == [all[i]];
    EncodeLastByte(coder, storage, all[i], goal);
  }

  /** Encoding reads inLen + 1 bytes: the byte after the message is coded too, to end it. */
  method Encode(input: array<Byte>, inLen: nat, output: array<Byte8>)
    requires inLen < input.Length
    requires |Encoded(input[..inLen + 1])| / 8 < output.Length
    modifies output
    ensures |Encoded(old(input[..inLen + 1]))| <= 8 * output.Length
    ensures StreamBits(output[..], |Encoded(old(input[..inLen + 1]))|) == Encoded(old(input[..inLen + 1]))
  {
    var all := input[..inLen + 1];
    InitialIsValid();
    ghost var goal := EncodeAll(START, InitialTotals(), all);
    var storage := new int[SYMBOLS + 2];
    ModelInit(storage);
    var coder := new ArithEncoder(output);
    EncodeMessage(coder, storage, all, goal);
    coder.Flush();
  }

  // The decoder.

  /** With an unsigned 16-bit cast the bounds are the same. */
  method RemoveBounds(low: int, high: int, lc: int, hc: int, scale: int) returns (low': int, high': int)
    requires InRange(low, high) && 0 <= lc < hc <= scale < high - low + 1 && scale <= MAXIMUM_SCALE
    ensures low' == NarrowLow(low, high, lc, scale) && high' == NarrowHigh(low, high, hc, scale)
    ensures low <= low' <= high' <= high
  {
    var range := high - low + 1;
    NarrowInRange(low, high, lc, hc, scale);
    ShareIs(range, lc, scale);
    ShareIs(range, hc, scale);
    NoOverflow(range, lc);
    NoOverflow(range, hc);
    var top, bottom := range * hc / scale - 1, range * lc / scale;
    Wrap(low, top);
    Wrap(low, bottom);
    high' := ToUint16(low + ToUint16(top));
    low' := ToUint16(low + ToUint16(bottom));
  }

  method CurrentCount(low: int, high: int, code: int, scale: int) returns (count: int)
    requires InRange(low, high) && low <= code <= high && 0 < scale <= MAXIMUM_SCALE
    ensures count == Count(code - low, scale, high - low + 1)
  {
    var range := high - low + 1;
    CountIs(code - low, scale, range);
    NoOverflow(code - low + 1, scale);
    CountReaches(code - low, 0, scale, range);
    CountReaches(code - low, scale, scale, range);
    count := ((code - low + 1) * scale - 1) / range;
  }

  method SymbolToInt(storage: array<int>, count: int) returns (c: int)
    requires storage.Length == SYMBOLS + 2
    ensures c == SymbolFrom(storage[..], count, SYMBOLS - 1)
  {
    ghost var t := storage[..];
    c := SYMBOLS - 1;
    while c >= 0 && count < storage[c + 1]
      invariant -1 <= c < SYMBOLS
      invariant SymbolFrom(t, count, c) == SymbolFrom(t, count, SYMBOLS - 1)
    {
      assert t[c + 1] == storage[c + 1];
      c := c - 1;
    }
  }

  lemma SymbolCounts(d: Decoder, t: seq<int>)
    requires InRange(d.low, d.high) && Settled(d.low, d.high) && d.low <= d.code <= d.high && ValidModel(t)
    ensures var c := WaitingSymbol(d, t); t[c + 1] < t[c + 2]
    ensures var r := Removed(d, t, WaitingSymbol(d, t)); d.low <= r.low <= d.code <= r.high <= d.high
  {
    var c, scale, range := WaitingSymbol(d, t), Scale(t), d.high - d.low + 1;
    var x := d.code - d.low;
    SettledIsWide(d.low, d.high);
    CountReaches(x, 0, scale, range);
    ShareIs(range, 0, scale);
    CountReaches(x, scale, scale, range);
    ShareIs(range, scale, scale);
    MulDivExact(range, scale);
    FoundCounts(t, Count(x, scale, range), SYMBOLS - 1);
    CountReaches(x, t[c + 1], scale, range);
    CountReaches(x, t[c + 2], scale, range);
    NarrowInRange(d.low, d.high, t[c + 1], t[c + 2], scale);
  }

  lemma MulDivExact(a: int, b: int)
    requires b > 0
    ensures a * b / b == a
  {
    DivAtLeast(a * b, b, a);
    assert (a + 1) * b == a * b + b;
    DivAtMost(a * b, b, a);
  }

  /** The symbol that the search stops at has the count among its own. */
  lemma {:induction false} FoundCounts(t: seq<int>, count: int, from: int)
    requires |t| == SYMBOLS + 2 && t[0] <= count && -1 <= from < SYMBOLS && count < t[from + 2]
    ensures var c := SymbolFrom(t, count, from); t[c + 1] <= count < t[c + 2]
    decreases from
  {
    if from >= 0 && count < t[from + 1] {
      FoundCounts(t, count, from - 1);
    }
  }

  class ArithDecoder {
    var low: int
    var high: int
    var code: int
    const reader: BitReader

    constructor (input: array<Byte8>)
      requires input.Length > 0
      ensures fresh(reader) && reader.buf == input && reader.Valid() && reader.Pos() == 0
    {
      low, high, code := 0, 0, 0;
      reader := new BitReader(input);
    }

    ghost function State(): Decoder
      requires reader.Valid()
      reads this, reader
    {
      Decoder(low, high, code, reader.Pos())
    }

    /** The whole input as bits. */
    ghost function Stream(): (bits: seq<bool>)
      reads reader.buf
      ensures |bits| == 8 * reader.buf.Length
    {
      StreamBits(reader.buf[..], 8 * reader.buf.Length)
    }

    /** The next bit enters the code register from below. */
    method ShiftCode()
      requires reader.Valid() && reader.Pos() < 8 * reader.buf.Length
      modifies this`code, reader
      ensures reader.Valid() && reader.Pos() == old(reader.Pos()) + 1
      ensures code == ToUint16(2 * old(code)) + Bit(Stream()[old(reader.Pos())])
    {
      assert StreamBit(reader.buf[..], reader.Pos()) == Stream()[reader.Pos()];
      var bit := reader.Get();
      code := ToUint16(2 * code) + Bit(bit);
    }

    /** Sixteen bits fill the code register. */
    method Start()
      requires reader.Valid() && reader.Pos() == 0 && 2 <= reader.buf.Length
      modifies this, reader
      ensures reader.Valid() && State() == Decoder(0, 0xFFFF, Val(Stream()[..16]), 16)
      ensures InRange(low, high) && Settled(low, high) && low <= code <= high
    {
      ghost var bits := Stream();
      code := 0;
      var i := 0;
      while i < 16
        invariant i <= 16 && reader.Valid() && reader.Pos() == i
        invariant code == Val(bits[..i])
      {
        NextCode(bits, i);
        ShiftCode();
        i := i + 1;
      }
      CodeFits(bits[..16]);
      low := 0;
      high := 0xFFFF;
    }

    /** One turn of the normalisation. */
    method Shift()
      requires reader.Valid() && InRange(low, high) && !Settled(low, high)
      requires reader.Pos() < 8 * reader.buf.Length
      modifies this, reader
      ensures reader.Valid() && State() == ShiftDecoder(old(State()), Stream())
    {
      if Top(high) == Top(low) {
      } else {
        code := FlipSecond(code);
        low := low % 0x4000;
        high := high + 0x4000;
      }
      low := ToUint16(2 * low);
      high := ToUint16(2 * high) + 1;
      ShiftCode();
    }

    method Normalise()
      requires reader.Valid() && InRange(low, high) && SettleDecoder(State(), Stream()).Some?
      modifies this, reader
      ensures reader.Valid() && SettleDecoder(old(State()), Stream()) == Some(State())
    {
      ghost var goal := SettleDecoder(State(), Stream());
      while !Settled(low, high)
        invariant reader.Valid() && InRange(low, high) && SettleDecoder(State(), Stream()) == goal
        decreases 0x10000 - (high - low)
      {
        ShiftRange(State(), Stream());
        Shift();
      }
    }

    /** The symbol in the code, which leaves the registers. */
    method DecodeSymbol(storage: array<int>) returns (c: int)
      requires storage.Length == SYMBOLS + 2 && ValidModel(storage[..]) && reader.Valid()
      requires InRange(low, high) && Settled(low, high) && low <= code <= high
      requires SettleDecoder(Removed(State(), storage[..], WaitingSymbol(State(), storage[..])), Stream()).Some?
      modifies this, reader
      ensures c == WaitingSymbol(old(State()), old(storage[..])) && reader.Valid()
      ensures SettleDecoder(Removed(old(State()), old(storage[..]), c), Stream()) == Some(State())
    {
      ghost var t := storage[..];
      var scale := storage[SYMBOLS + 1];
      assert scale == Scale(t);
      SymbolCounts(State(), t);
      SettledIsWide(low, high);
      var count := CurrentCount(low, high, code, scale);
      c := SymbolToInt(storage, count);
      assert t[c + 1] == storage[c + 1] && t[c + 2] == storage[c + 2];
      low, high := RemoveBounds(low, high, storage[c + 1], storage[c + 2], scale);
      Normalise();
    }
  }

  lemma ShiftRange(d: Decoder, bits: seq<bool>)
    requires InRange(d.low, d.high) && !Settled(d.low, d.high) && d.pos < |bits|
    ensures var f := ShiftDecoder(d, bits);
      InRange(f.low, f.high) && f.high - f.low == 2 * (d.high - d.low) + 1
  {
    ShiftValues(Encoder(d.low, d.high, 0, []));
  }

  lemma CodeFits(bits: seq<bool>)
    requires |bits| <= 16
    ensures Val(bits) < 0x10000 && (|bits| < 16 ==> Val(bits) < 0x8000)
  {
    ValConcat([], bits);
    FourteenBits(1);
    ScaledGrows(|bits|, 15);
    ScaledTwice(1, 14);
  }

  lemma NextCode(bits: seq<bool>, i: nat)
    requires i < 16 <= |bits|
    ensures ToUint16(2 * Val(bits[..i])) + Bit(bits[i]) == Val(bits[..i + 1])
  {
    CodeFits(bits[..i]);
    ValPrefix(bits, i);
  }

  lemma {:induction false} ScaledGrows(i: nat, n: nat)
    ensures 1 <= Scaled(1, i)
    ensures i <= n ==> Scaled(1, i) <= Scaled(1, n)
  {
    if i < n {
      ScaledGrows(i, n - 1);
    } else if n < i {
      ScaledGrows(i - 1, n);
    } else if 0 < i {
      ScaledGrows(i - 1, n - 1);
    }
  }

  /** The code stays within the range. */
  lemma {:induction false} SettleKeeps(d: Decoder, bits: seq<bool>)
    requires InRange(d.low, d.high) && d.low <= d.code <= d.high && SettleDecoder(d, bits).Some?
    ensures var f := SettleDecoder(d, bits).value;
      InRange(f.low, f.high) && Settled(f.low, f.high) && f.low <= f.code <= f.high
    decreases |bits| - d.pos
  {
    if !Settled(d.low, d.high) {
      var e := Encoder(d.low, d.high, 0, []);
      ShiftValues(e);
      ShiftCode(e, d.code, Bit(bits[d.pos]));
      SettleKeeps(ShiftDecoder(d, bits), bits);
    }
  }

  /** The decoder's position: n bytes more, and the closing symbol, are still to be read. */
  ghost predicate Yields(d: Decoder, t: seq<int>, bits: seq<bool>, rest: seq<Byte>) {
    && InRange(d.low, d.high) && Settled(d.low, d.high) && d.low <= d.code <= d.high
    && ValidModel(t) && DecodeAll(d, t, bits, |rest|) == Some(rest)
  }

  lemma YieldsOn(d: Decoder, t: seq<int>, bits: seq<bool>, rest: seq<Byte>)
    requires Yields(d, t, bits, rest)
    ensures SettleDecoder(Removed(d, t, WaitingSymbol(d, t)), bits).Some?
    ensures var c := WaitingSymbol(d, t);
      var next := SettleDecoder(Removed(d, t, c), bits).value;
      rest != [] ==> rest[0] == AsByte(c) && Yields(next, Updated(t, AsByte(c)), bits, rest[1..])
  {
    var c := WaitingSymbol(d, t);
    SymbolCounts(d, t);
    SettleKeeps(Removed(d, t, c), bits);
    if rest != [] {
      var next := SettleDecoder(Removed(d, t, c), bits).value;
      var tail := DecodeAll(next, Next(t, AsByte(c)), bits, |rest| - 1).value;
      assert rest == [AsByte(c)] + tail;
    }
  }

  method DecodeByte(coder: ArithDecoder, storage: array<int>, ghost rest: seq<Byte>) returns (c: Byte)
    requires storage.Length == SYMBOLS + 2 && coder.reader.Valid() && rest != []
    requires Yields(coder.State(), storage[..], coder.Stream(), rest)
    requires storage as object != coder.reader.buf
    modifies storage, coder, coder.reader
    ensures coder.reader.Valid() && coder.Stream() == old(coder.Stream()) && c == rest[0]
    ensures Yields(coder.State(), storage[..], coder.Stream(), rest[1..])
  {
    YieldsOn(coder.State(), storage[..], coder.Stream(), rest);
    var symbol := coder.DecodeSymbol(storage);
    c := AsByte(symbol);
    UpdateModel(storage, c);
  }

  method DecodeMessage(coder: ArithDecoder, storage: array<int>, output: array<Byte>, outLen: nat, ghost all: seq<Byte>)
    requires storage.Length == SYMBOLS + 2 && coder.reader.Valid() && |all| == outLen <= output.Length
    requires output as object != storage && output as object != coder.reader.buf
    requires storage as object != coder.reader.buf
    requires Yields(coder.State(), storage[..], coder.Stream(), all)
    modifies storage, coder, coder.reader, output
    ensures output[..outLen] == all
    ensures output[outLen..] == old(output[outLen..])
  {
    ghost var bits := coder.Stream();
    var i := 0;
    assert all[0..] == all;
    while i < outLen
      invariant i <= outLen && coder.reader.Valid() && coder.Stream() == bits
      invariant output[..i] == all[..i] && output[outLen..] == old(output[outLen..])
      invariant Yields(coder.State(), storage[..], bits, all[i..])
    {
      var c := DecodeByte(coder, storage, all[i..]);
      output[i] := c;
      assert all[i..][1..] == all[i + 1..];
      i := i + 1;
    }
    YieldsOn(coder.State(), storage[..], coder.Stream(), all[i..]);
    var closing := coder.DecodeSymbol(storage);
  }

  /** Decoding outLen bytes reads the stream exactly as far as the closing symbol needs. */
  method Decode(input: array<Byte8>, output: array<Byte>, outLen: nat)
    requires outLen <= output.Length && Decoded(StreamBits(input[..], 8 * input.Length), outLen).Some?
    requires output as object != input
    modifies output
    ensures Decoded(StreamBits(input[..], 8 * input.Length), outLen) == Some(output[..outLen])
    ensures output[outLen..] == old(output[outLen..])
  {
    ghost var bits := StreamBits(input[..], 8 * input.Length);
    InitialIsValid();
    var storage := new int[SYMBOLS + 2];
    ModelInit(storage);
    var coder := new ArithDecoder(input);
    coder.Start();
    DecodeLength(coder.State(), InitialTotals(), bits, outLen);
    DecodeMessage(coder, storage, output, outLen, Decoded(bits, outLen).value);
  }

  lemma {:induction false} DecodeLength(d: Decoder, t: seq<int>, bits: seq<bool>, n: nat)
    requires ValidModel(t) && DecodeAll(d, t, bits, n).Some?
    ensures |DecodeAll(d, t, bits, n).value| == n
    decreases n
  {
    if n > 0 {
      var c := WaitingSymbol(d, t);
      DecodeLength(SettleDecoder(Removed(d, t, c), bits).value, Next(t, AsByte(c)), bits, n - 1);
    }
  }
}
