/** The CRC-CCITT checksum: what it is a remainder of, and which changes it detects. Registers and bytes are
    their bits, the most significant first. */
module Crc {
  type Register = r: seq<bool> | |r| == 16 witness Zeros(16)

  type Byte = b: seq<bool> | |b| == 8 witness Zeros(8)

  const POLY: Register := [
    false, false, false, true, false, false, false, false,
    false, false, true, false, false, false, false, true]
  const INITIAL_VALUE: Register := [
    true, true, true, true, true, true, true, true,
    true, true, true, true, true, true, true, true]

  function Zeros(n: nat): (z: seq<bool>)
    ensures |z| == n && forall i :: 0 <= i < n ==> !z[i]
  {
    seq(n, _ => false)
  }

  function Xor(a: seq<bool>, b: seq<bool>): (r: seq<bool>)
    requires |a| == |b|
    ensures |r| == |a| && forall i :: 0 <= i < |a| ==> r[i] == (a[i] != b[i])
  {
    seq(|a|, i requires 0 <= i < |a| => a[i] != b[i])
  }

  /** One bit is shifted in; the polynomial is taken off if a one was shifted out. */
  function Step(r: Register, bit: bool): Register {
    if r[0] then Xor(r[1..] + [bit], POLY) else r[1..] + [bit]
  }

  function Run(r: Register, bits: seq<bool>): Register
    decreases |bits|
  {
    if bits == [] then r else Run(Step(r, bits[0]), bits[1..])
  }

  function Bits(bytes: seq<Byte>): (bits: seq<bool>)
    ensures |bits| == 8 * |bytes|
  {
    if bytes == [] then [] else bytes[0] + Bits(bytes[1..])
  }

  function Checksum(bytes: seq<Byte>): Register {
    Run(INITIAL_VALUE, Bits(bytes) + Zeros(16))
  }

  // Runs.

  lemma {:induction false} RunSum(r: Register, a: seq<bool>, b: seq<bool>)
    ensures Run(r, a + b) == Run(Run(r, a), b)
    decreases |a|
  {
    if a == [] {
      assert a + b == b;
    } else {
      assert (a + b)[1..] == a[1..] + b;
      RunSum(Step(r, a[0]), a[1..], b);
    }
  }

  lemma {:induction false} BitsSum(a: seq<Byte>, b: seq<Byte>)
    ensures Bits(a + b) == Bits(a) + Bits(b)
  {
    if a == [] {
      assert a + b == b;
    } else {
      assert (a + b)[1..] == a[1..] + b;
      BitsSum(a[1..], b);
    }
  }

  lemma StepLinear(r: Register, s: Register, a: bool, b: bool)
    ensures Step(Xor(r, s), a != b) == Xor(Step(r, a), Step(s, b))
  {
  }

  lemma {:induction false} RunLinear(r: Register, s: Register, a: seq<bool>, b: seq<bool>)
    requires |a| == |b|
    ensures Run(Xor(r, s), Xor(a, b)) == Xor(Run(r, a), Run(s, b))
    decreases |a|
  {
    if a != [] {
      assert Xor(a, b)[1..] == Xor(a[1..], b[1..]);
      StepLinear(r, s, a[0], b[0]);
      RunLinear(Step(r, a[0]), Step(s, b[0]), a[1..], b[1..]);
    }
  }

  /** Only from zero does a zero bit lead to zero: the polynomial ends in a one. */
  lemma StepToZero(r: Register)
    ensures Step(r, false) == Zeros(16) <==> r == Zeros(16)
  {
    var s := Step(r, false);
    assert r[0] ==> s[15];
    forall i | 0 <= i < 15 && !r[0]
      ensures s[i] == r[i + 1]
    {
    }
    forall i | 1 <= i < 16 && !r[0]
      ensures r[i] == s[i - 1]
    {
    }
  }

  lemma {:induction false} ZerosKeep(r: Register, n: nat)
    ensures Run(r, Zeros(n)) == Zeros(16) <==> r == Zeros(16)
    decreases n
  {
    if n > 0 {
      assert Zeros(n)[1..] == Zeros(n - 1);
      ZerosKeep(Step(r, false), n - 1);
      StepToZero(r);
    }
  }

  /** A clear register takes in up to 16 bits as they are. */
  lemma {:induction false} ClearTakes(r: Register, bits: seq<bool>)
    requires |bits| <= 16 && r[..|bits|] == Zeros(|bits|)
    ensures Run(r, bits) == r[|bits|..] + bits
    decreases |bits|
  {
    if bits != [] {
      assert r[0] == r[..|bits|][0];
      var s := Step(r, bits[0]);
      forall i | 0 <= i < |bits| - 1
        ensures !s[i]
      {
        assert s[i] == r[i + 1] == r[..|bits|][i + 1];
      }
      ClearTakes(s, bits[1..]);
      assert s[|bits| - 1..] + bits[1..] == r[|bits|..] + bits;
    }
  }

  // Changes that are detected.

  lemma RunDifference(r: Register, a: seq<bool>, b: seq<bool>)
    requires |a| == |b|
    ensures Xor(Run(r, a), Run(r, b)) == Run(Zeros(16), Xor(a, b))
  {
    RunLinear(r, r, a, b);
    assert Xor(r, r) == Zeros(16);
  }

  /** The difference of two checksums depends on the difference of the messages only. */
  lemma ChecksumDifference(m: seq<Byte>, n: seq<Byte>)
    requires |m| == |n|
    ensures Xor(Checksum(m), Checksum(n)) == Run(Zeros(16), Xor(Bits(m), Bits(n)) + Zeros(16))
  {
    XorPadded(Bits(m), Bits(n), 16);
    RunDifference(INITIAL_VALUE, Bits(m) + Zeros(16), Bits(n) + Zeros(16));
  }

  lemma XorPadded(a: seq<bool>, b: seq<bool>, n: nat)
    requires |a| == |b|
    ensures Xor(a + Zeros(n), b + Zeros(n)) == Xor(a, b) + Zeros(n)
  {
  }

  /** A difference of at most 16 consecutive bits leaves the register other than zero. */
  lemma BurstRemains(d: seq<bool>, from: nat, to: nat, at: nat)
    requires from <= at < to <= |d| && to - from <= 16 && d[at]
    requires forall i :: 0 <= i < |d| && !(from <= i < to) ==> !d[i]
    ensures Run(Zeros(16), d + Zeros(16)) != Zeros(16)
  {
    var burst, after := d[from..to], |d| - to + 16;
    BurstParts(d, from, to);
    RunSum(Zeros(16), Zeros(from) + burst, Zeros(after));
    RunSum(Zeros(16), Zeros(from), burst);
    ZerosKeep(Zeros(16), from);
    ClearTakes(Zeros(16), burst);
    var r := Run(Zeros(16), burst);
    assert r[16 - |burst| + (at - from)] == burst[at - from] == d[at];
    ZerosKeep(r, after);
  }

  lemma BurstParts(d: seq<bool>, from: nat, to: nat)
    requires from <= to <= |d|
    requires forall i :: 0 <= i < |d| && !(from <= i < to) ==> !d[i]
    ensures d + Zeros(16) == (Zeros(from) + d[from..to]) + Zeros(|d| - to + 16)
  {
  }

  lemma {:induction false} BitsDiffer(m: seq<Byte>, n: seq<Byte>)
    requires |m| == |n| && m != n
    ensures Bits(m) != Bits(n)
  {
    assert Bits(m)[..8] == m[0] && Bits(n)[..8] == n[0];
    if m[0] == n[0] {
      BitsDiffer(m[1..], n[1..]);
      assert Bits(m)[8..] == Bits(m[1..]) && Bits(n)[8..] == Bits(n[1..]);
    }
  }

  /** Two messages of one length that differ, and only within 16 consecutive bits, have different checksums. */
  lemma BurstDetected(m: seq<Byte>, n: seq<Byte>, from: nat)
    requires |m| == |n| && m != n
    requires forall i :: 0 <= i < |Bits(m)| && !(from <= i < from + 16) ==> Bits(m)[i] == Bits(n)[i]
    ensures Checksum(m) != Checksum(n)
  {
    BitsDiffer(m, n);
    var d := Xor(Bits(m), Bits(n));
    var at :| 0 <= at < |d| && Bits(m)[at] != Bits(n)[at];
    BurstRemains(d, from, if from + 16 <= |d| then from + 16 else |d|, at);
    ChecksumDifference(m, n);
    var c := Checksum(m);
    assert Xor(c, c) == Zeros(16);
  }

  lemma SelfXor(r: seq<bool>)
    ensures Xor(r, r) == Zeros(|r|) && Xor(r, Zeros(|r|)) == r && Xor(Zeros(|r|), r) == r
  {
  }

  /** Feeding in what 16 zeros would have led to leads to zero. */
  lemma OwnImage(r: Register, z: Register, c: Register)
    requires z == Zeros(16) && c == Run(r, z)
    ensures Run(r, c) == z
  {
    RunLinear(r, z, z, c);
    SelfXor(r);
    SelfXor(c);
    ClearTakes(z, c);
    assert z[16..] + c == c;
  }

  lemma Halves(c: Register)
    ensures Bits([c[..8], c[8..]]) == c
  {
    assert Bits([c[8..]]) == c[8..] + Bits([]);
    assert [c[..8], c[8..]][1..] == [c[8..]];
    assert c[..8] + c[8..] == c;
  }

  /** A message followed by its checksum, high byte first, has the checksum zero. */
  lemma AppendedChecksum(m: seq<Byte>)
    ensures Checksum(m + [Checksum(m)[..8], Checksum(m)[8..]]) == Zeros(16)
  {
    var c := Checksum(m);
    var r := Run(INITIAL_VALUE, Bits(m));
    BitsSum(m, [c[..8], c[8..]]);
    Halves(c);
    RunSum(INITIAL_VALUE, Bits(m), Zeros(16));
    RunSum(INITIAL_VALUE, Bits(m), c);
    RunSum(INITIAL_VALUE, Bits(m) + c, Zeros(16));
    OwnImage(r, Zeros(16), c);
    ZerosKeep(Zeros(16), 16);
  }

  // The checksum as a remainder.

  /** A polynomial with one more place in front, from where a generator is added if it is taken. */
  function WithGenerator(poly: Register, taken: bool, rest: seq<bool>): (p: seq<bool>)
    requires |rest| >= 16
    ensures |p| == |rest| + 1
    ensures forall i :: 0 <= i < |rest| ==> p[i + 1] == ((taken && i < 16 && poly[i]) != rest[i])
  {
    var moved := [false] + rest;
    if taken then Xor([true] + poly + Zeros(|rest| - 16), moved) else moved
  }

  /** The product of q and x^16 + x^12 + x^5 + 1, as polynomials over the field of two elements. */
  function TimesGenerator(q: seq<bool>): (p: seq<bool>)
    ensures |p| == |q| + 16
    decreases |q|
  {
    if q == [] then Zeros(16) else WithGenerator(POLY, q[0], TimesGenerator(q[1..]))
  }

  /** The generator itself: the coefficient of x^k is in place 16 - k. */
  lemma GeneratorTerms(k: nat)
    requires k <= 16
    ensures TimesGenerator([true])[16 - k] <==> k in {16, 12, 5, 0}
  {
    assert [true][1..] == [];
  }

  /** s is what is left of r and the bits after it, when q generators are taken off. */
  predicate Leaves(r: Register, bits: seq<bool>, q: seq<bool>, s: Register) {
    |q| == |bits| && r + bits == Xor(TimesGenerator(q), Zeros(|bits|) + s)
  }

  /** What the generator, taken off at the leading bit, does to a later one. */
  lemma TakenOff(q: seq<bool>, rest: seq<bool>, i: nat)
    requires |q| > 0 && i < 15 + |q| && rest == TimesGenerator(q[1..])
    ensures TimesGenerator(q)[i + 1] == ((q[0] && i < 16 && POLY[i]) != rest[i])
  {
  }

  lemma StepAt(r: Register, bits: seq<bool>, i: nat)
    requires |bits| > 0 && i < 15 + |bits|
    ensures (Step(r, bits[0]) + bits[1..])[i] == ((r[0] && i < 16 && POLY[i]) != (r + bits)[i + 1])
  {
    if i < 16 {
      assert (r + bits)[i + 1] == (r[1..] + [bits[0]])[i];
    } else {
      assert (r + bits)[i + 1] == bits[i - 15] == bits[1..][i - 16];
    }
  }

  /** Behind the leading bit, taking off one generator is what a step does. */
  lemma LeavesBit(r: Register, bits: seq<bool>, q: seq<bool>, s: Register, i: nat)
    requires |bits| > 0 && |q| == |bits| && q[0] == r[0] && i < 15 + |bits|
    ensures (r + bits)[i + 1] == Xor(TimesGenerator(q), Zeros(|bits|) + s)[i + 1] <==>
      (Step(r, bits[0]) + bits[1..])[i] == Xor(TimesGenerator(q[1..]), Zeros(|bits| - 1) + s)[i]
  {
    TakenOff(q, TimesGenerator(q[1..]), i);
    StepAt(r, bits, i);
    ShiftedZeros(|bits|, s, i);
  }

  lemma ShiftedZeros(n: nat, s: Register, i: nat)
    requires n > 0 && i < n + 15
    ensures (Zeros(n) + s)[i + 1] == (Zeros(n - 1) + s)[i]
  {
  }

  lemma LeavesStep(r: Register, bits: seq<bool>, q: seq<bool>, s: Register)
    requires |bits| > 0 && |q| == |bits|
    ensures Leaves(r, bits, q, s) <==> q[0] == r[0] && Leaves(Step(r, bits[0]), bits[1..], q[1..], s)
  {
    var left, right := r + bits, Xor(TimesGenerator(q), Zeros(|bits|) + s);
    var left1, right1 := Step(r, bits[0]) + bits[1..], Xor(TimesGenerator(q[1..]), Zeros(|bits| - 1) + s);
    assert left[0] == r[0] && right[0] == q[0];
    if q[0] == r[0] {
      forall i | 0 <= i < |left1|
        ensures left[i + 1] == right[i + 1] <==> left1[i] == right1[i]
      {
        LeavesBit(r, bits, q, s, i);
      }
      SameBehind(left, right, left1, right1);
    }
  }

  lemma SameBehind(a: seq<bool>, b: seq<bool>, a1: seq<bool>, b1: seq<bool>)
    requires |a| == |b| == |a1| + 1 == |b1| + 1 && a[0] == b[0]
    requires forall i :: 0 <= i < |a1| ==> (a[i + 1] == b[i + 1] <==> a1[i] == b1[i])
    ensures a == b <==> a1 == b1
  {
    if a == b {
      forall i | 0 <= i < |a1|
        ensures a1[i] == b1[i]
      {
        assert a[i + 1] == b[i + 1];
      }
    }
    if a1 == b1 {
      forall i | 1 <= i < |a|
        ensures a[i] == b[i]
      {
        assert a1[i - 1] == b1[i - 1] && a[(i - 1) + 1] == b[(i - 1) + 1];
      }
    }
  }

  lemma {:induction false} DivisionExact(r: Register, bits: seq<bool>, q: seq<bool>, s: Register)
    requires Leaves(r, bits, q, s)
    ensures s == Run(r, bits)
    decreases |bits|
  {
    if bits == [] {
      assert r + bits == r && Xor(TimesGenerator(q), Zeros(0) + s) == s;
    } else {
      LeavesStep(r, bits, q, s);
      DivisionExact(Step(r, bits[0]), bits[1..], q[1..], s);
    }
  }

  lemma {:induction false} DivisionExists(r: Register, bits: seq<bool>) returns (q: seq<bool>)
    ensures Leaves(r, bits, q, Run(r, bits))
    decreases |bits|
  {
    if bits == [] {
      q := [];
      assert Xor(TimesGenerator(q), Zeros(0) + r) == r;
    } else {
      var rest := DivisionExists(Step(r, bits[0]), bits[1..]);
      q := [r[0]] + rest;
      LeavesStep(r, bits, q, Run(r, bits));
    }
  }

  ghost predicate IsRemainder(r: Register, bits: seq<bool>, s: Register) {
    exists q :: Leaves(r, bits, q, s)
  }

  lemma OnlyRemainder(r: Register, bits: seq<bool>, s: Register)
    ensures IsRemainder(r, bits, s) <==> s == Run(r, bits)
  {
    var q := DivisionExists(r, bits);
    if IsRemainder(r, bits, s) {
      var other :| Leaves(r, bits, other, s);
      DivisionExact(r, bits, other, s);
    }
  }

  /** The checksum is the remainder, and the only one, of the initial value followed by the message
      and 16 zeros, divided by the generator. */
  lemma ChecksumIsRemainder(m: seq<Byte>, s: Register)
    ensures IsRemainder(INITIAL_VALUE, Bits(m) + Zeros(16), s) <==> s == Checksum(m)
  {
    OnlyRemainder(INITIAL_VALUE, Bits(m) + Zeros(16), s);
  }

  // The two copies of the loop.

  method ShiftBit(crc: Register, bit: bool) returns (r: Register)
    ensures r == Step(crc, bit)
  {
    var xorFlag := crc[0];
    r := crc[1..] + [false];
    if bit {
      r := r[15 := true];
    }
    if xorFlag {
      r := Xor(r, POLY);
    }
    assert crc[1..] + [bit] == (crc[1..] + [false])[15 := bit];
  }

  method ShiftByte(crc: Register, byte: Byte) returns (r: Register)
    ensures r == Run(crc, byte)
  {
    r := crc;
    for bit := 0 to 8
      invariant r == Run(crc, byte[..bit])
    {
      RunSum(crc, byte[..bit], [byte[bit]]);
      assert byte[..bit + 1] == byte[..bit] + [byte[bit]];
      r := ShiftBit(r, byte[bit]);
    }
    assert byte[..8] == byte;
  }

  /** The checksum is augmented by 16 zero bits. */
  method Augment(crc: Register) returns (r: Register)
    ensures r == Run(crc, Zeros(16))
  {
    r := crc;
    for bit := 0 to 16
      invariant r == Run(crc, Zeros(bit))
    {
      RunSum(crc, Zeros(bit), [false]);
      assert Zeros(bit + 1) == Zeros(bit) + [false];
      r := ShiftBit(r, false);
    }
  }

  /** The register after some bytes. */
  ghost function Fed(bytes: seq<Byte>): Register {
    Run(INITIAL_VALUE, Bits(bytes))
  }

  lemma FedByte(bytes: seq<Byte>, i: nat)
    requires i < |bytes|
    ensures Fed(bytes[..i + 1]) == Run(Fed(bytes[..i]), bytes[i])
  {
    assert bytes[..i + 1] == bytes[..i] + [bytes[i]];
    BitsSum(bytes[..i], [bytes[i]]);
    assert Bits([bytes[i]]) == bytes[i] + Bits([]);
    assert bytes[i] + [] == bytes[i];
    RunSum(INITIAL_VALUE, Bits(bytes[..i]), bytes[i]);
  }

  lemma FedAll(bytes: seq<Byte>)
    ensures Checksum(bytes) == Run(Fed(bytes[..|bytes|]), Zeros(16))
  {
    assert bytes[..|bytes|] == bytes;
    RunSum(INITIAL_VALUE, Bits(bytes), Zeros(16));
  }

  method Compute(buf: array<Byte>, size: nat) returns (crc: Register)
    requires size <= buf.Length
    ensures crc == Checksum(buf[..size])
  {
    ghost var bytes := buf[..size];
    crc := INITIAL_VALUE;
    for index := 0 to size
      invariant crc == Fed(bytes[..index])
    {
      FedByte(bytes, index);
      crc := ShiftByte(crc, buf[index]);
    }
    FedAll(bytes);
    crc := Augment(crc);
  }
}
