/** RC5 as it is defined, bit by bit, and the chaining of blocks: the code meets the equations. */
module Rc5Equations {
  import opened Rc5
  import opened Rc5Modes

  /** The k-th bit, counted from the lowest. */
  ghost predicate Bit(x: nat, k: nat) {
    if k == 0 then x % 2 == 1 else Bit(x / 2, k - 1)
  }

  lemma {:induction false} BitOfNothing(k: nat)
    ensures !Bit(0, k)
  {
    if k > 0 {
      BitOfNothing(k - 1);
    }
  }

  lemma {:induction false} SameBits(x: nat, y: nat, width: nat)
    requires x < Power(width) && y < Power(width) && forall k: nat :: k < width ==> Bit(x, k) == Bit(y, k)
    ensures x == y
  {
    if width > 0 {
      assert Bit(x, 0) == Bit(y, 0);
      forall k: nat | k < width - 1
        ensures Bit(x / 2, k) == Bit(y / 2, k)
      {
        assert Bit(x, k + 1) == Bit(y, k + 1);
      }
      SameBits(x / 2, y / 2, width - 1);
    }
  }

  // Exclusive-or.

  ghost predicate IsXor(x: nat, y: nat, z: nat, width: nat) {
    forall k: nat :: k < width ==> (Bit(z, k) <==> Bit(x, k) != Bit(y, k))
  }

  lemma {:induction false} XorBit(x: nat, y: nat, k: nat)
    ensures Bit(Xor(x, y), k) <==> Bit(x, k) != Bit(y, k)
  {
    if x == 0 && y == 0 {
      BitOfNothing(k);
    } else {
      var r := Xor(x, y);
      assert r / 2 == Xor(x / 2, y / 2) && (r % 2 == 0 <==> x % 2 == y % 2);
      if k > 0 {
        XorBit(x / 2, y / 2, k - 1);
      }
    }
  }

  lemma XorOfWords(x: Word, y: Word)
    ensures IsXor(x, y, XorWords(x, y), 32)
  {
    forall k: nat | k < 32
      ensures Bit(XorWords(x, y), k) <==> Bit(x, k) != Bit(y, k)
    {
      XorBit(x, y, k);
    }
  }

  lemma XorOfBytes(x: Byte, y: Byte)
    ensures IsXor(x, y, XorBytes(x, y), 8)
  {
    forall k: nat | k < 8
      ensures Bit(XorBytes(x, y), k) <==> Bit(x, k) != Bit(y, k)
    {
      XorBit(x, y, k);
    }
  }

  // Rotation.

  /** Every bit goes n places up, and those that fall off come in below. */
  ghost predicate IsRotation(x: Word, n: nat, r: Word) {
    forall k: nat :: k < 32 ==> (Bit(r, (k + n) % 32) <==> Bit(x, k))
  }

  /** The bits of a number in two parts. */
  lemma {:induction false} BitsOfParts(low: nat, top: nat, width: nat, k: nat)
    requires low < Power(width)
    ensures Bit(top * Power(width) + low, k) <==> if k < width then Bit(low, k) else Bit(top, k - width)
  {
    var whole := top * Power(width) + low;
    if width > 0 {
      var half := top * Power(width - 1);
      assert whole == 2 * half + low;
      assert whole / 2 == half + low / 2 && whole % 2 == low % 2;
      if k > 0 {
        BitsOfParts(low / 2, top, width - 1, k - 1);
      }
    }
  }

  lemma TopAndRest(x: Word) returns (top: nat, rest: nat)
    ensures top <= 1 && rest < 0x8000_0000 == Power(31) && x == top * Power(31) + rest
  {
    Widths();
    assert Power(32) == 2 * Power(31);
    top, rest := if x < 0x8000_0000 then 0 else 1, if x < 0x8000_0000 then x else x - 0x8000_0000;
  }

  lemma RollBitBits(x: Word, k: nat)
    requires k < 32
    ensures Bit(RollBit(x), if k < 31 then k + 1 else 0) <==> Bit(x, k)
  {
    var top, rest := TopAndRest(x);
    BitsOfParts(rest, top, 31, k);
    TopBit(x, top, rest);
    RolledBits(rest, top, if k < 31 then k else 0);
  }

  lemma RolledBits(rest: nat, top: nat, k: nat)
    requires top <= 1
    ensures Bit(2 * rest + top, k + 1) <==> Bit(rest, k)
    ensures Bit(2 * rest + top, 0) <==> top == 1
  {
    assert (2 * rest + top) / 2 == rest;
  }

  lemma NextPlace(m: nat)
    ensures 0 <= m % 32 && (m + 1) % 32 == if m % 32 < 31 then m % 32 + 1 else 0
  {
  }

  lemma {:induction false} RollIsRotation(x: Word, n: nat)
    ensures IsRotation(x, n, Roll(x, n))
  {
    if n > 0 {
      RollIsRotation(x, n - 1);
      forall k: nat | k < 32
        ensures Bit(Roll(x, n), (k + n) % 32) <==> Bit(x, k)
      {
        NextPlace(k + n - 1);
        assert Bit(Roll(x, n - 1), (k + (n - 1)) % 32) <==> Bit(x, k);
        RollBitBits(Roll(x, n - 1), (k + n - 1) % 32);
      }
    }
  }

  lemma RotatesLeft(x: Word, n: nat)
    requires n <= 32
    ensures IsRotation(x, n, FastRotateLeft(x, n))
  {
    FastIsRoll(x, n);
    RollIsRotation(x, n);
  }

  // The cipher.

  ghost predicate IsSum(x: Word, y: Word, z: Word) {
    z == (x + y) % 0x1_0000_0000
  }

  /** r is x xor y, rotated left by the low five bits of y, plus s. */
  ghost predicate IsMixed(x: Word, y: Word, s: Word, r: Word) {
    exists mixed: Word, rotated: Word ::
      IsXor(x, y, mixed, 32) && IsRotation(mixed, y % 32, rotated) && IsSum(rotated, s, r)
  }

  lemma MixIsMixed(x: Word, y: Word, s: Word)
    ensures IsMixed(x, y, s, Mix(x, y, s))
  {
    var mixed: Word := XorWords(x, y);
    var rotated: Word := FastRotateLeft(mixed, y % 32);
    XorOfWords(x, y);
    RotatesLeft(mixed, y % 32);
    assert IsSum(rotated, s, Mix(x, y, s));
  }

  /** The words between the rounds of a block and a key, from the first sums to the last round. */
  ghost predicate AreRounds(p: Pair, key: Table, a: seq<Word>, b: seq<Word>) {
    && |a| == |b| == 13
    && IsSum(p.a, key[0], a[0]) && IsSum(p.b, key[1], b[0])
    && (forall i :: 1 <= i <= 12 ==> IsRound(a[i - 1], b[i - 1], key[2 * i], key[2 * i + 1], a[i], b[i]))
  }

  /** First a is mixed with b, and then b with what a has become. */
  ghost predicate IsRound(a0: Word, b0: Word, s0: Word, s1: Word, a1: Word, b1: Word) {
    IsMixed(a0, b0, s0, a1) && IsMixed(b0, a1, s1, b1)
  }

  lemma RoundsAreMixed(p: Pair, key: Table, i: nat)
    requires 1 <= i <= 12
    ensures var q, r := Rounds(p, key, i - 1), Rounds(p, key, i);
      IsRound(q.a, q.b, key[2 * i], key[2 * i + 1], r.a, r.b)
  {
    var q := Rounds(p, key, i - 1);
    MixIsMixed(q.a, q.b, key[2 * i]);
    MixIsMixed(q.b, Round(q, key[2 * i], key[2 * i + 1]).a, key[2 * i + 1]);
  }

  lemma WordsOfRounds(p: Pair, key: Table, n: nat) returns (a: seq<Word>, b: seq<Word>)
    requires n == 12
    ensures AreRounds(p, key, a, b) && Rounds(p, key, n) == Pair(a[n], b[n])
  {
    a := seq(n + 1, i requires 0 <= i <= n => Rounds(p, key, i).a);
    b := seq(n + 1, i requires 0 <= i <= n => Rounds(p, key, i).b);
    forall i | 1 <= i <= n
      ensures IsRound(a[i - 1], b[i - 1], key[2 * i], key[2 * i + 1], a[i], b[i])
    {
      RoundsAreMixed(p, key, i);
    }
  }

  lemma DefiningEquations(p: Pair, key: Table) returns (a: seq<Word>, b: seq<Word>)
    ensures AreRounds(p, key, a, b) && Encrypted(p, key) == Pair(a[12], b[12])
  {
    a, b := WordsOfRounds(p, key, ROUNDS);
  }

  // The equations leave no choice.

  lemma RotatedOnce(x: Word, n: nat, r: Word, t: Word)
    requires n < 32 && IsRotation(x, n, r) && IsRotation(x, n, t)
    ensures r == t
  {
    Widths();
    forall k: nat | k < 32
      ensures Bit(r, k) == Bit(t, k)
    {
      var from := if k >= n then k - n else k + 32 - n;
      assert (from + n) % 32 == k;
      assert Bit(r, (from + n) % 32) == Bit(x, from) == Bit(t, (from + n) % 32);
    }
    SameBits(r, t, 32);
  }

  lemma XorOnce(x: Word, y: Word, z: Word)
    requires IsXor(x, y, z, 32)
    ensures z == XorWords(x, y)
  {
    Widths();
    XorOfWords(x, y);
    SameBits(z, XorWords(x, y), 32);
  }

  lemma SumOnce(x: Word, y: Word, z: Word)
    ensures IsSum(x, y, z) <==> z == Add(x, y)
  {
  }

  lemma MixedOnce(x: Word, y: Word, s: Word, r: Word)
    requires IsMixed(x, y, s, r)
    ensures r == Mix(x, y, s)
  {
    var mixed: Word, rotated: Word :|
      IsXor(x, y, mixed, 32) && IsRotation(mixed, y % 32, rotated) && IsSum(rotated, s, r);
    XorOnce(x, y, mixed);
    RotatesLeft(mixed, y % 32);
    RotatedOnce(mixed, y % 32, rotated, FastRotateLeft(mixed, y % 32));
    SumOnce(rotated, s, r);
  }

  lemma RoundOnce(q: Pair, s0: Word, s1: Word, a: Word, b: Word)
    requires IsRound(q.a, q.b, s0, s1, a, b)
    ensures Pair(a, b) == Round(q, s0, s1)
  {
    MixedOnce(q.a, q.b, s0, a);
    MixedOnce(q.b, a, s1, b);
  }

  lemma {:induction false} RoundsOnce(p: Pair, key: Table, a: seq<Word>, b: seq<Word>, n: nat)
    requires AreRounds(p, key, a, b) && n <= 12
    ensures Pair(a[n], b[n]) == Rounds(p, key, n)
  {
    if n > 0 {
      RoundsOnce(p, key, a, b, n - 1);
      RoundOnce(Pair(a[n - 1], b[n - 1]), key[2 * n], key[2 * n + 1], a[n], b[n]);
    }
  }

  /** A pair is the block encrypted if and only if the equations lead to it. */
  lemma EncryptedExactly(p: Pair, key: Table, q: Pair)
    ensures q == Encrypted(p, key) <==> exists a, b :: AreRounds(p, key, a, b) && q == Pair(a[12], b[12])
  {
    var a, b := DefiningEquations(p, key);
    assert AreRounds(p, key, a, b);
    forall c, d | AreRounds(p, key, c, d)
      ensures Pair(c[12], d[12]) == Encrypted(p, key)
    {
      RoundsOnce(p, key, c, d, 12);
    }
  }

  // Bytes: the lowest first.

  lemma BitsOfByteAndRest(b: Byte, rest: nat, k: nat)
    ensures Bit(rest * 0x100 + b, k) <==> if k < 8 then Bit(b, k) else Bit(rest, k - 8)
  {
    Widths();
    BitsOfParts(b, rest, 8, k);
  }

  lemma WordBits(s: seq<Byte>, i: nat, j: nat, k: nat)
    requires i + 4 <= |s| && j < 4 && k < 8
    ensures Bit(WordAt(s, i), 8 * j + k) <==> Bit(s[i + j], k)
  {
    var s3: nat := s[i + 3];
    var s2: nat := s3 * 0x100 + s[i + 2];
    var s1: nat := s2 * 0x100 + s[i + 1];
    assert WordAt(s, i) == s1 * 0x100 + s[i];
    BitsOfByteAndRest(s[i], s1, 8 * j + k);
    if j > 0 {
      BitsOfByteAndRest(s[i + 1], s2, 8 * (j - 1) + k);
    }
    if j > 1 {
      BitsOfByteAndRest(s[i + 2], s3, 8 * (j - 2) + k);
    }
  }

  /** The bits of a block as it is loaded are those of its bytes, and so they are when it is stored. */
  lemma BlockBits(s: Block, j: nat, k: nat)
    requires j < 8 && k < 8
    ensures Bit(if j < 4 then Load(s).a else Load(s).b, 8 * (j % 4) + k) <==> Bit(s[j], k)
    ensures Store(Load(s)) == s
  {
    WordBits(s, if j < 4 then 0 else 4, j % 4, k);
    LoadAndStore(Load(s), s);
  }

  // Chaining.

  /** Every block goes in with the ciphertext before it, or with the initial vector. */
  lemma Chained(text: seq<Byte>, iv: Block, code: Code, i: nat)
    requires |text| >= BLOCK && |text| % BLOCK == 0 && BLOCK * (i + 1) <= |text|
    ensures var c := EncryptedText(text, iv, code);
      Piece(c, i) == code.e(XorInto(Previous(c, iv, i), Piece(text, i)))
  {
    var n := |text| / BLOCK;
    CipherAt(text, iv, code, n, i);
    if i > 0 {
      CipherAt(text, iv, code, n, i - 1);
    }
  }

  /** With a short end the same holds up to the last two; of these, the last is chained from the one before it, filled
      up with zeros, and comes first, and of the one before it as much follows as there is of the end. */
  lemma ChainedShort(text: seq<Byte>, iv: Block, code: Code, i: nat)
    requires |text| >= BLOCK && |text| % BLOCK > 0
    ensures var c, n := EncryptedText(text, iv, code), |text| / BLOCK;
      var last := code.e(XorInto(Previous(c, iv, n - 1), Piece(text, n - 1)));
      && (i < n - 1 ==> Piece(c, i) == code.e(XorInto(Previous(c, iv, i), Piece(text, i))))
      && Piece(c, n - 1) == code.e(XorInto(last, text[BLOCK * n..]))
      && c[BLOCK * n..] == last[..|text| % BLOCK]
  {
    var c, n := EncryptedText(text, iv, code), |text| / BLOCK;
    ShortParts(text, iv, code, c, n);
    forall k | 0 <= k < n
      ensures Previous(c, iv, k) == Chain(text, iv, code, k)
    {
      if k > 0 {
        assert Piece(c, k - 1) == Chain(text, iv, code, k - 1 + 1);
      }
    }
    assert Chain(text, iv, code, n) == code.e(XorInto(Chain(text, iv, code, n - 1), Piece(text, n - 1)));
    if i < n - 1 {
      assert Piece(c, i) == Chain(text, iv, code, i + 1);
    }
  }
}
