/** The RC5-32/12 block cipher on pairs of words, and its inverse. */
module Rc5 {
  const ROUNDS := 12
  const KEY_SPACES := 2 * ROUNDS + 2

  type Word = x: nat | x < 0x1_0000_0000

  type Table = s: seq<Word> | |s| == KEY_SPACES witness seq(KEY_SPACES, _ => 0)

  // Words as numbers: sums wrap, exclusive-or goes bit by bit.

  function Add(x: Word, y: Word): Word {
    if x + y < 0x1_0000_0000 then x + y else x + y - 0x1_0000_0000
  }

  function Subtract(x: Word, y: Word): Word {
    if x >= y then x - y else x - y + 0x1_0000_0000
  }

  function Xor(x: nat, y: nat): (r: nat) {
    if x == 0 && y == 0 then 0 else (if x % 2 == y % 2 then 0 else 1) + 2 * Xor(x / 2, y / 2)
  }

  lemma {:induction false} XorBack(x: nat, y: nat)
    ensures Xor(Xor(x, y), y) == x
  {
    if x != 0 || y != 0 {
      var r := Xor(x, y);
      assert r / 2 == Xor(x / 2, y / 2) && (r % 2 == 0 <==> x % 2 == y % 2);
      XorBack(x / 2, y / 2);
    }
  }

  /** The exclusive-or of two numbers of some width has that width. */
  lemma {:induction false} XorBound(x: nat, y: nat, width: nat)
    requires x < Power(width) && y < Power(width)
    ensures Xor(x, y) < Power(width)
  {
    if x != 0 || y != 0 {
      XorBound(x / 2, y / 2, width - 1);
    }
  }

  function Power(n: nat): nat {
    if n == 0 then 1 else 2 * Power(n - 1)
  }

  lemma Widths()
    ensures Power(8) == 0x100 && Power(32) == 0x1_0000_0000
  {
    assert Power(8) == 0x100;
    assert Power(16) == 0x100 * Power(8);
    assert Power(24) == 0x100 * Power(16);
    assert Power(32) == 0x100 * Power(24);
  }

  function XorWords(x: Word, y: Word): Word {
    Widths();
    XorBound(x, y, 32);
    Xor(x, y)
  }

  // Rotation: by whole bytes, and then by a few single bits.

  function RollBit(x: Word): Word {
    if x < 0x8000_0000 then 2 * x else 2 * x - 0xFFFF_FFFF
  }

  function RollBitBack(x: Word): Word {
    if x % 2 == 0 then x / 2 else x / 2 + 0x8000_0000
  }

  function Roll(x: Word, n: nat): Word {
    if n == 0 then x else RollBit(Roll(x, n - 1))
  }

  function RollBack(x: Word, n: nat): Word {
    if n == 0 then x else RollBitBack(RollBack(x, n - 1))
  }

  function RollByte(x: Word): Word {
    x % 0x100_0000 * 0x100 + x / 0x100_0000
  }

  function RollTwoBytes(x: Word): Word {
    x % 0x1_0000 * 0x1_0000 + x / 0x1_0000
  }

  function RollThreeBytes(x: Word): Word {
    x % 0x100 * 0x100_0000 + x / 0x100
  }

  /** The amounts outside 0 to 31 have no case and change nothing. */
  function FastRotateLeft(x: Word, n: nat): Word {
    if n == 0 then x
    else if n <= 5 then Roll(x, n)
    else if n <= 7 then RollBack(RollByte(x), 8 - n)
    else if n <= 12 then Roll(RollByte(x), n - 8)
    else if n <= 16 then RollBack(RollTwoBytes(x), 16 - n)
    else if n <= 20 then Roll(RollTwoBytes(x), n - 16)
    else if n <= 24 then RollBack(RollThreeBytes(x), 24 - n)
    else if n <= 28 then Roll(RollThreeBytes(x), n - 24)
    else if n <= 31 then RollBack(x, 32 - n)
    else x
  }

  function FastRotateRight(x: Word, n: nat): Word
    requires n <= 32
  {
    FastRotateLeft(x, 32 - n)
  }

  lemma {:induction false} RollSum(x: Word, m: nat, n: nat)
    ensures Roll(x, m + n) == Roll(Roll(x, m), n)
  {
    if n > 0 {
      RollSum(x, m, n - 1);
    }
  }

  lemma BitBack(x: Word)
    ensures RollBitBack(RollBit(x)) == x
  {
    if x < 0x8000_0000 {
      assert RollBit(x) == 2 * x;
    } else {
      assert RollBit(x) == 2 * (x - 0x8000_0000) + 1;
    }
  }

  lemma {:induction false} BackFromRoll(x: Word, m: nat, n: nat)
    requires n <= m
    ensures RollBack(Roll(x, m), n) == Roll(x, m - n)
  {
    if n > 0 {
      BackFromRoll(x, m, n - 1);
      assert Roll(x, m - n + 1) == RollBit(Roll(x, m - n));
      BitBack(Roll(x, m - n));
    }
  }

  lemma TopBit(x: Word, top: nat, rest: nat)
    requires top <= 1 && rest < 0x8000_0000 && x == top * 0x8000_0000 + rest
    ensures RollBit(x) == 2 * rest + top
  {
  }

  /** Four single bits take the top four to the bottom. */
  lemma FourBits(x: Word)
    ensures Roll(x, 4) == x % 0x1000_0000 * 0x10 + x / 0x1000_0000
  {
    var h, l := x / 0x1000_0000, x % 0x1000_0000;
    var a, b, c, d := h / 8, h / 4 % 2, h / 2 % 2, h % 2;
    assert h == 8 * a + 4 * b + 2 * c + d;
    var x1, x2, x3 := Roll(x, 1), Roll(x, 2), Roll(x, 3);
    assert Roll(x, 0) == x;
    TopBit(x, a, b * 0x4000_0000 + c * 0x2000_0000 + d * 0x1000_0000 + l);
    TopBit(x1, b, c * 0x4000_0000 + d * 0x2000_0000 + 2 * l + a);
    TopBit(x2, c, d * 0x4000_0000 + 4 * l + 2 * a + b);
    TopBit(x3, d, 8 * l + 4 * a + 2 * b + c);
  }

  lemma TwoNibbles(x: Word, y: Word)
    requires y == x % 0x1000_0000 * 0x10 + x / 0x1000_0000
    ensures y % 0x1000_0000 * 0x10 + y / 0x1000_0000 == RollByte(x)
  {
    var p, q, r := x / 0x1000_0000, x / 0x100_0000 % 0x10, x % 0x100_0000;
    assert x == p * 0x1000_0000 + q * 0x100_0000 + r;
    assert y == q * 0x1000_0000 + r * 0x10 + p;
  }

  lemma EightBits(x: Word)
    ensures Roll(x, 8) == RollByte(x)
  {
    RollSum(x, 4, 4);
    FourBits(x);
    FourBits(Roll(x, 4));
    TwoNibbles(x, Roll(x, 4));
  }

  /** The word with these bytes, the highest first. */
  function Bytes(a: nat, b: nat, c: nat, d: nat): Word
    requires a < 0x100 && b < 0x100 && c < 0x100 && d < 0x100
  {
    a * 0x100_0000 + b * 0x1_0000 + c * 0x100 + d
  }

  lemma ByteRolled(a: nat, b: nat, c: nat, d: nat)
    requires a < 0x100 && b < 0x100 && c < 0x100 && d < 0x100
    ensures RollByte(Bytes(a, b, c, d)) == Bytes(b, c, d, a)
  {
    var low := b * 0x1_0000 + c * 0x100 + d;
    assert low < 0x100_0000;
    assert Bytes(a, b, c, d) == a * 0x100_0000 + low;
    assert Bytes(a, b, c, d) / 0x100_0000 == a;
  }

  lemma TwoBytesRolled(a: nat, b: nat, c: nat, d: nat)
    requires a < 0x100 && b < 0x100 && c < 0x100 && d < 0x100
    ensures RollTwoBytes(Bytes(a, b, c, d)) == Bytes(c, d, a, b)
  {
    var high, low := a * 0x100 + b, c * 0x100 + d;
    assert Bytes(a, b, c, d) == high * 0x1_0000 + low && low < 0x1_0000;
    assert Bytes(a, b, c, d) / 0x1_0000 == high;
  }

  lemma ThreeBytesRolled(a: nat, b: nat, c: nat, d: nat)
    requires a < 0x100 && b < 0x100 && c < 0x100 && d < 0x100
    ensures RollThreeBytes(Bytes(a, b, c, d)) == Bytes(d, a, b, c)
  {
    var high := a * 0x1_0000 + b * 0x100 + c;
    assert Bytes(a, b, c, d) == high * 0x100 + d;
    assert Bytes(a, b, c, d) / 0x100 == high;
  }

  lemma Digits(x: Word) returns (a: nat, b: nat, c: nat, d: nat)
    ensures a < 0x100 && b < 0x100 && c < 0x100 && d < 0x100 && x == Bytes(a, b, c, d)
  {
    var p, q := x / 0x100, x / 0x100 / 0x100;
    a, b, c, d := q / 0x100, q % 0x100, p % 0x100, x % 0x100;
    assert x == 0x100 * p + d && p == 0x100 * q + c && q == 0x100 * a + b;
  }

  lemma BytesRolled(x: Word, x1: Word, x2: Word)
    requires x1 == RollByte(x) && x2 == RollByte(x1)
    ensures x2 == RollTwoBytes(x) && RollByte(x2) == RollThreeBytes(x) && RollByte(RollByte(x2)) == x
  {
    var a, b, c, d := Digits(x);
    ByteRolled(a, b, c, d);
    ByteRolled(b, c, d, a);
    ByteRolled(c, d, a, b);
    ByteRolled(d, a, b, c);
    TwoBytesRolled(a, b, c, d);
    ThreeBytesRolled(a, b, c, d);
  }

  lemma BytesAreBits(x: Word)
    ensures Roll(x, 8) == RollByte(x) && Roll(x, 16) == RollTwoBytes(x) && Roll(x, 24) == RollThreeBytes(x)
    ensures Roll(x, 32) == x
  {
    EightBits(x);
    RollSum(x, 8, 8);
    EightBits(Roll(x, 8));
    RollSum(x, 16, 8);
    EightBits(Roll(x, 16));
    RollSum(x, 24, 8);
    EightBits(Roll(x, 24));
    BytesRolled(x, Roll(x, 8), Roll(x, 16));
  }

  /** The fast rotation is rotation by single bits. */
  lemma FastIsRoll(x: Word, n: nat)
    requires n <= 32
    ensures FastRotateLeft(x, n) == Roll(x, n)
  {
    BytesAreBits(x);
    if 6 <= n <= 7 {
      BackFromRoll(x, 8, 8 - n);
    } else if 8 <= n <= 12 {
      RollSum(x, 8, n - 8);
    } else if 13 <= n <= 16 {
      BackFromRoll(x, 16, 16 - n);
    } else if 17 <= n <= 20 {
      RollSum(x, 16, n - 16);
    } else if 21 <= n <= 24 {
      BackFromRoll(x, 24, 24 - n);
    } else if 25 <= n <= 28 {
      RollSum(x, 24, n - 24);
    } else if 29 <= n <= 31 {
      BackFromRoll(x, 32, 32 - n);
    }
  }

  lemma RotatedBack(x: Word, n: nat)
    requires n <= 32
    ensures FastRotateRight(FastRotateLeft(x, n), n) == x && FastRotateLeft(FastRotateRight(x, n), n) == x
  {
    FastIsRoll(x, n);
    FastIsRoll(x, 32 - n);
    FastIsRoll(Roll(x, n), 32 - n);
    FastIsRoll(Roll(x, 32 - n), n);
    RollSum(x, n, 32 - n);
    RollSum(x, 32 - n, n);
    BytesAreBits(x);
  }

  /** Half a round mixes one word with the other and a word of the table. */
  function Mix(x: Word, y: Word, s: Word): Word {
    Add(FastRotateLeft(XorWords(x, y), y % 32), s)
  }

  function Unmix(x: Word, y: Word, s: Word): Word {
    XorWords(FastRotateRight(Subtract(x, s), y % 32), y)
  }

  lemma Unmixed(x: Word, y: Word, s: Word)
    ensures Unmix(Mix(x, y, s), y, s) == x && Mix(Unmix(x, y, s), y, s) == x
  {
    RotatedBack(XorWords(x, y), y % 32);
    XorBack(x, y);
    RotatedBack(Subtract(x, s), y % 32);
    XorBack(FastRotateRight(Subtract(x, s), y % 32), y);
  }

  // The cipher.

  datatype Pair = Pair(a: Word, b: Word)

  function Round(q: Pair, s0: Word, s1: Word): Pair {
    var a := Mix(q.a, q.b, s0);
    Pair(a, Mix(q.b, a, s1))
  }

  function Unround(q: Pair, s0: Word, s1: Word): Pair {
    var b := Unmix(q.b, q.a, s1);
    Pair(Unmix(q.a, b, s0), b)
  }

  lemma RoundUndone(q: Pair, s0: Word, s1: Word)
    ensures Unround(Round(q, s0, s1), s0, s1) == q && Round(Unround(q, s0, s1), s0, s1) == q
  {
    var there, back := Round(q, s0, s1), Unround(q, s0, s1);
    Unmixed(q.b, there.a, s1);
    Unmixed(q.a, q.b, s0);
    Unmixed(q.b, q.a, s1);
    Unmixed(q.a, back.b, s0);
  }

  /** The pair after the first n rounds. */
  function Rounds(p: Pair, key: Table, n: nat): Pair
    requires n <= ROUNDS
  {
    if n == 0 then Pair(Add(p.a, key[0]), Add(p.b, key[1]))
    else Round(Rounds(p, key, n - 1), key[2 * n], key[2 * n + 1])
  }

  /** The pair after the last n rounds are undone. */
  function Unrounds(p: Pair, key: Table, n: nat): Pair
    requires n <= ROUNDS
  {
    if n == 0 then p
    else
      var r := ROUNDS + 1 - n;
      Unround(Unrounds(p, key, n - 1), key[2 * r], key[2 * r + 1])
  }

  function Encrypted(p: Pair, key: Table): Pair {
    Rounds(p, key, ROUNDS)
  }

  function Decrypted(p: Pair, key: Table): Pair {
    var q := Unrounds(p, key, ROUNDS);
    Pair(Subtract(q.a, key[0]), Subtract(q.b, key[1]))
  }

  lemma {:induction false} RoundsUndone(p: Pair, q: Pair, key: Table, m: nat, n: nat)
    requires n <= m == ROUNDS && q == Rounds(p, key, m)
    ensures Unrounds(q, key, n) == Rounds(p, key, m - n)
  {
    if n > 0 {
      RoundsUndone(p, q, key, m, n - 1);
      var r := m + 1 - n;
      RoundUndone(Rounds(p, key, r - 1), key[2 * r], key[2 * r + 1]);
    }
  }

  lemma {:induction false} RoundsRedone(p: Pair, q: Pair, key: Table, m: nat, n: nat)
    requires n <= m == ROUNDS && q == Unrounds(p, key, m)
    ensures Rounds(Pair(Subtract(q.a, key[0]), Subtract(q.b, key[1])), key, n) == Unrounds(p, key, m - n)
  {
    if n > 0 {
      RoundsRedone(p, q, key, m, n - 1);
      RoundUndone(Unrounds(p, key, m - n), key[2 * n], key[2 * n + 1]);
    }
  }

  /** Decryption and encryption undo each other on every block and for every key table. */
  lemma CipherInverse(p: Pair, key: Table)
    ensures Decrypted(Encrypted(p, key), key) == p
    ensures Encrypted(Decrypted(p, key), key) == p
  {
    RoundsUndone(p, Encrypted(p, key), key, ROUNDS, ROUNDS);
    RoundsRedone(p, Unrounds(p, key, ROUNDS), key, ROUNDS, ROUNDS);
  }

  method Encrypt(p: Pair, key: Table) returns (q: Pair)
    ensures q == Encrypted(p, key)
  {
    var a, b, s := p.a, p.b, 0;
    a := Add(a, key[s]);
    s := s + 1;
    b := Add(b, key[s]);
    s := s + 1;
    for i := ROUNDS downto 0
      invariant s == 2 * (ROUNDS - i) + 2 && Pair(a, b) == Rounds(p, key, ROUNDS - i)
    {
      a := XorWords(a, b);
      a := FastRotateLeft(a, b % 32);
      a := Add(a, key[s]);
      s := s + 1;
      b := XorWords(b, a);
      b := FastRotateLeft(b, a % 32);
      b := Add(b, key[s]);
      s := s + 1;
    }
    q := Pair(a, b);
  }

  method Decrypt(p: Pair, key: Table) returns (q: Pair)
    ensures q == Decrypted(p, key)
  {
    var a, b, s := p.a, p.b, KEY_SPACES;
    for i := 0 to ROUNDS
      invariant s == KEY_SPACES - 2 * i && Pair(a, b) == Unrounds(p, key, i)
    {
      s := s - 1;
      b := Subtract(b, key[s]);
      b := FastRotateRight(b, a % 32);
      b := XorWords(b, a);
      s := s - 1;
      a := Subtract(a, key[s]);
      a := FastRotateRight(a, b % 32);
      a := XorWords(a, b);
    }
    s := s - 1;
    b := Subtract(b, key[s]);
    s := s - 1;
    a := Subtract(a, key[s]);
    q := Pair(a, b);
  }
}
