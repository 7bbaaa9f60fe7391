/** Chained encryption of any number of bytes from one block up, with ciphertext stealing (section 8 of RFC 2040). */
module Rc5Modes {
  import opened Rc5

  const BLOCK := 8

  type Byte = x: nat | x < 0x100

  type Block = s: seq<Byte> | |s| == BLOCK witness [0, 0, 0, 0, 0, 0, 0, 0]

  // Bytes and words.

  function WordAt(s: seq<Byte>, i: nat): Word
    requires i + 4 <= |s|
  {
    Bytes(s[i + 3], s[i + 2], s[i + 1], s[i])
  }

  function BytesOf(x: Word): (s: seq<Byte>)
    ensures |s| == 4
  {
    var p, q := x / 0x100, x / 0x100 / 0x100;
    [x % 0x100, p % 0x100, q % 0x100, q / 0x100]
  }

  lemma WordOfBytes(x: Word)
    ensures WordAt(BytesOf(x), 0) == x
  {
    var p, q := x / 0x100, x / 0x100 / 0x100;
    assert x == 0x100 * p + x % 0x100 && p == 0x100 * q + p % 0x100 && q == 0x100 * (q / 0x100) + q % 0x100;
  }

  lemma BytesOfWord(s: seq<Byte>)
    requires |s| == 4
    ensures BytesOf(WordAt(s, 0)) == s
  {
    var s0: nat, s1: nat, s2: nat, s3: nat := s[0], s[1], s[2], s[3];
    var p: nat, q: nat := 0x1_0000 * s3 + 0x100 * s2 + s1, 0x100 * s3 + s2;
    assert WordAt(s, 0) == 0x100 * p + s0 && p == 0x100 * q + s1;
    assert WordAt(s, 0) / 0x100 == p && p / 0x100 == q;
  }

  function Load(s: Block): Pair {
    Pair(WordAt(s, 0), WordAt(s, 4))
  }

  function Store(p: Pair): Block {
    BytesOf(p.a) + BytesOf(p.b)
  }

  lemma LoadAndStore(p: Pair, s: Block)
    ensures Load(Store(p)) == p && Store(Load(s)) == s
  {
    WordOfBytes(p.a);
    WordOfBytes(p.b);
    BytesOfWord(s[..4]);
    BytesOfWord(s[4..]);
    assert WordAt(s, 0) == WordAt(s[..4], 0) && WordAt(s, 4) == WordAt(s[4..], 0);
    assert WordAt(Store(p), 0) == WordAt(BytesOf(p.a), 0) && WordAt(Store(p), 4) == WordAt(BytesOf(p.b), 0);
    assert s == s[..4] + s[4..];
  }

  function EncryptedBlock(s: Block, key: Table): Block {
    Store(Encrypted(Load(s), key))
  }

  function DecryptedBlock(s: Block, key: Table): Block {
    Store(Decrypted(Load(s), key))
  }

  lemma BlockInverse(s: Block, key: Table)
    ensures DecryptedBlock(EncryptedBlock(s, key), key) == s
    ensures EncryptedBlock(DecryptedBlock(s, key), key) == s
  {
    LoadAndStore(Encrypted(Load(s), key), s);
    LoadAndStore(Decrypted(Load(s), key), s);
    CipherInverse(Load(s), key);
  }

  function XorBytes(x: Byte, y: Byte): Byte {
    Widths();
    XorBound(x, y, 8);
    Xor(x, y)
  }

  lemma {:induction false} XorCommutes(x: nat, y: nat)
    ensures Xor(x, y) == Xor(y, x)
  {
    if x != 0 || y != 0 {
      XorCommutes(x / 2, y / 2);
    }
  }

  lemma XorBytesBack(x: Byte, y: Byte)
    ensures XorBytes(XorBytes(x, y), y) == x && XorBytes(y, XorBytes(x, y)) == x
    ensures XorBytes(x, y) == XorBytes(y, x)
  {
    XorBack(x, y);
    XorCommutes(x, y);
    XorCommutes(y, Xor(x, y));
  }

  /** Bytes exclusive-ored into the head of a block. */
  function XorInto(block: Block, bytes: seq<Byte>): (r: Block)
    requires |bytes| <= BLOCK
    ensures forall j :: 0 <= j < BLOCK ==> r[j] == if j < |bytes| then XorBytes(block[j], bytes[j]) else block[j]
  {
    seq(BLOCK, j requires 0 <= j < BLOCK => if j < |bytes| then XorBytes(block[j], bytes[j]) else block[j])
  }

  lemma XorIntoBack(block: Block, bytes: seq<Byte>)
    requires |bytes| <= BLOCK
    ensures XorInto(XorInto(block, bytes), bytes) == block
    ensures XorInto(XorInto(block, bytes), block[..|bytes|])[..|bytes|] == bytes
    ensures |bytes| == BLOCK ==> XorInto(block, XorInto(block, bytes)) == bytes
    ensures |bytes| == BLOCK ==> XorInto(block, bytes) == XorInto(bytes, block)
  {
    forall j | 0 <= j < |bytes|
      ensures XorBytes(XorBytes(block[j], bytes[j]), bytes[j]) == block[j]
      ensures XorBytes(XorBytes(block[j], bytes[j]), block[j]) == bytes[j]
      ensures XorBytes(block[j], XorBytes(block[j], bytes[j])) == bytes[j]
      ensures XorBytes(block[j], bytes[j]) == XorBytes(bytes[j], block[j])
    {
      XorBytesBack(block[j], bytes[j]);
      XorBytesBack(bytes[j], block[j]);
    }
  }

  // The modes as functions, for any code whose two halves undo each other.

  datatype Code = Code(e: Block -> Block, d: Block -> Block)

  ghost predicate Inverse(code: Code) {
    forall b :: code.d(code.e(b)) == b && code.e(code.d(b)) == b
  }

  // The code of a key stays behind the predicate Shown, so that the modes never look inside the cipher.

  ghost predicate Shown(b: Block) {
    true
  }

  ghost predicate Uses(code: Code, key: Table) {
    forall b {:trigger Shown(b)} :: code.e(b) == EncryptedBlock(b, key) && code.d(b) == DecryptedBlock(b, key)
  }

  ghost function Cipher(key: Table): Code {
    assert Uses(Code((b: Block) => EncryptedBlock(b, key), (b: Block) => DecryptedBlock(b, key)), key);
    var code :| Uses(code, key);
    code
  }

  lemma CipherOn(key: Table, b: Block)
    ensures Cipher(key).e(b) == EncryptedBlock(b, key) && Cipher(key).d(b) == DecryptedBlock(b, key)
  {
    assert Shown(b);
  }

  lemma CipherIsInverse(key: Table)
    ensures Inverse(Cipher(key))
  {
    forall b: Block
      ensures Cipher(key).d(Cipher(key).e(b)) == b && Cipher(key).e(Cipher(key).d(b)) == b
    {
      BlockInverse(b, key);
      CipherOn(key, b);
      CipherOn(key, EncryptedBlock(b, key));
      CipherOn(key, DecryptedBlock(b, key));
    }
  }

  function Piece(s: seq<Byte>, i: nat): Block
    requires BLOCK * (i + 1) <= |s|
  {
    s[BLOCK * i..BLOCK * (i + 1)]
  }

  /** What the first n blocks chain to. */
  function Chain(text: seq<Byte>, iv: Block, code: Code, n: nat): Block
    requires BLOCK * n <= |text|
  {
    if n == 0 then iv else code.e(XorInto(Chain(text, iv, code, n - 1), Piece(text, n - 1)))
  }

  function CipherText(text: seq<Byte>, iv: Block, code: Code, n: nat): (c: seq<Byte>)
    requires BLOCK * n <= |text|
    ensures |c| == BLOCK * n
  {
    if n == 0 then [] else CipherText(text, iv, code, n - 1) + Chain(text, iv, code, n)
  }

  /** The last block of the chain: of a short rest, if there is one. */
  function Final(text: seq<Byte>, iv: Block, code: Code): Block {
    var n := |text| / BLOCK;
    if |text| % BLOCK == 0 then Chain(text, iv, code, n)
    else code.e(XorInto(Chain(text, iv, code, n), text[BLOCK * n..]))
  }

  /** The last two blocks change places, and the one that comes last is cut to the length of the text. */
  function EncryptedText(text: seq<Byte>, iv: Block, code: Code): (c: seq<Byte>)
    requires |text| >= BLOCK
    ensures |c| == |text|
  {
    var n, rest := |text| / BLOCK, |text| % BLOCK;
    if rest == 0 then CipherText(text, iv, code, n)
    else CipherText(text, iv, code, n - 1) + Final(text, iv, code) + Chain(text, iv, code, n)[..rest]
  }

  function Previous(c: seq<Byte>, iv: Block, i: nat): Block
    requires BLOCK * i <= |c|
  {
    if i == 0 then iv else Piece(c, i - 1)
  }

  function PlainText(c: seq<Byte>, iv: Block, code: Code, n: nat): (text: seq<Byte>)
    requires BLOCK * n <= |c|
    ensures |text| == BLOCK * n
  {
    if n == 0 then []
    else PlainText(c, iv, code, n - 1) + XorInto(Previous(c, iv, n - 1), code.d(Piece(c, n - 1)))
  }

  function DecryptedText(c: seq<Byte>, iv: Block, code: Code): (text: seq<Byte>)
    requires |c| >= BLOCK
    ensures |text| == |c|
  {
    var n, rest := |c| / BLOCK, |c| % BLOCK;
    if rest == 0 then PlainText(c, iv, code, n)
    else
      var tail := c[BLOCK * n..];
      var mixed := code.d(Piece(c, n - 1));
      var stolen := code.d(tail + mixed[rest..]);
      PlainText(c, iv, code, n - 1) + XorInto(stolen, Previous(c, iv, n - 1)) + XorInto(mixed, tail)[..rest]
  }

  // What decryption recovers.

  lemma {:induction false} CipherAt(text: seq<Byte>, iv: Block, code: Code, n: nat, i: nat)
    requires i < n && BLOCK * n <= |text|
    ensures Piece(CipherText(text, iv, code, n), i) == Chain(text, iv, code, i + 1)
  {
    if i < n - 1 {
      CipherAt(text, iv, code, n - 1, i);
      assert Piece(CipherText(text, iv, code, n), i) == Piece(CipherText(text, iv, code, n - 1), i);
    }
  }

  /** One block, between its chaining values. */
  lemma BlockBack(chained: Block, plain: Block, code: Code)
    requires Inverse(code)
    ensures XorInto(chained, code.d(code.e(XorInto(chained, plain)))) == plain
    ensures XorInto(code.d(code.e(XorInto(chained, plain))), chained) == plain
  {
    XorIntoBack(chained, plain);
    XorIntoBack(XorInto(chained, plain), chained);
  }

  lemma {:induction false} PlainBack(text: seq<Byte>, c: seq<Byte>, iv: Block, code: Code, n: nat)
    requires Inverse(code)
    requires BLOCK * n <= |text| && BLOCK * n <= |c|
    requires forall i :: 0 <= i < n ==> Piece(c, i) == Chain(text, iv, code, i + 1)
    ensures PlainText(c, iv, code, n) == text[..BLOCK * n]
  {
    if n > 0 {
      PlainBack(text, c, iv, code, n - 1);
      BlockBack(Chain(text, iv, code, n - 1), Piece(text, n - 1), code);
      assert text[..BLOCK * n] == text[..BLOCK * (n - 1)] + Piece(text, n - 1);
    }
  }

  /** The stolen end of a block comes back from the block it was mixed into. */
  lemma Unstolen(last: Block, tail: seq<Byte>, code: Code, mixed: Block)
    requires Inverse(code) && |tail| < BLOCK && mixed == code.d(code.e(XorInto(last, tail)))
    ensures last[..|tail|] + mixed[|tail|..] == last
    ensures XorInto(mixed, last[..|tail|])[..|tail|] == tail
  {
    assert mixed == XorInto(last, tail);
    XorIntoBack(last, tail);
  }

  /** The ciphertext of a text with a short block, in its parts. */
  lemma ShortParts(text: seq<Byte>, iv: Block, code: Code, c: seq<Byte>, n: nat)
    requires |text| % BLOCK > 0 && n == |text| / BLOCK > 0 && c == EncryptedText(text, iv, code)
    ensures Piece(c, n - 1) == Final(text, iv, code)
    ensures c[BLOCK * n..] == Chain(text, iv, code, n)[..|text| % BLOCK]
    ensures forall i :: 0 <= i < n - 1 ==> Piece(c, i) == Chain(text, iv, code, i + 1)
  {
    forall i | 0 <= i < n - 1
      ensures Piece(c, i) == Chain(text, iv, code, i + 1)
    {
      CipherAt(text, iv, code, n - 1, i);
      assert Piece(c, i) == Piece(CipherText(text, iv, code, n - 1), i);
    }
  }

  /** What decryption makes of those parts. */
  lemma PartsBack(c: seq<Byte>, iv: Block, code: Code, n: nat, head: seq<Byte>, block: Block, last: Block,
                  tail: seq<Byte>)
    requires Inverse(code) && n > 0 && |tail| > 0 && |c| == BLOCK * n + |tail| && |tail| < BLOCK
    requires Piece(c, n - 1) == code.e(XorInto(last, tail)) && c[BLOCK * n..] == last[..|tail|]
    requires PlainText(c, iv, code, n - 1) == head && last == code.e(XorInto(Previous(c, iv, n - 1), block))
    ensures DecryptedText(c, iv, code) == head + block + tail
  {
    assert |c| / BLOCK == n && |c| % BLOCK == |tail|;
    Unstolen(last, tail, code, code.d(Piece(c, n - 1)));
    BlockBack(Previous(c, iv, n - 1), block, code);
  }

  lemma ShortHead(text: seq<Byte>, iv: Block, code: Code, c: seq<Byte>, n: nat)
    requires Inverse(code)
    requires |text| % BLOCK > 0 && n == |text| / BLOCK > 0 && c == EncryptedText(text, iv, code)
    ensures PlainText(c, iv, code, n - 1) == text[..BLOCK * (n - 1)]
    ensures Previous(c, iv, n - 1) == Chain(text, iv, code, n - 1)
  {
    ShortParts(text, iv, code, c, n);
    PlainBack(text, c, iv, code, n - 1);
  }

  lemma Divided(text: seq<Byte>, n: nat)
    requires n == |text| / BLOCK > 0
    ensures text == text[..BLOCK * (n - 1)] + Piece(text, n - 1) + text[BLOCK * n..]
  {
  }

  lemma ShortBlockBack(text: seq<Byte>, iv: Block, code: Code, c: seq<Byte>, n: nat)
    requires Inverse(code)
    requires |text| % BLOCK > 0 && n == |text| / BLOCK > 0 && c == EncryptedText(text, iv, code)
    ensures DecryptedText(c, iv, code) == text
  {
    var tail, last := text[BLOCK * n..], Chain(text, iv, code, n);
    ShortParts(text, iv, code, c, n);
    ShortHead(text, iv, code, c, n);
    Divided(text, n);
    PartsBack(c, iv, code, n, text[..BLOCK * (n - 1)], Piece(text, n - 1), last, tail);
  }

  /** Decryption inverts encryption on every text of at least a block. */
  lemma DecryptEncrypt(text: seq<Byte>, iv: Block, code: Code)
    requires Inverse(code)
    requires |text| >= BLOCK
    ensures DecryptedText(EncryptedText(text, iv, code), iv, code) == text
  {
    var n := |text| / BLOCK;
    if |text| % BLOCK == 0 {
      var c := EncryptedText(text, iv, code);
      forall i | 0 <= i < n
        ensures Piece(c, i) == Chain(text, iv, code, i + 1)
      {
        CipherAt(text, iv, code, n, i);
      }
      PlainBack(text, c, iv, code, n);
    } else {
      ShortBlockBack(text, iv, code, EncryptedText(text, iv, code), n);
    }
  }

  /** The authentication code is cut from the block of the ciphertext before the short one, or the last one. */
  lemma FinalInCiphertext(text: seq<Byte>, iv: Block, code: Code)
    requires |text| >= BLOCK
    ensures Final(text, iv, code) == Piece(EncryptedText(text, iv, code), |text| / BLOCK - 1)
  {
    var n := |text| / BLOCK;
    if |text| % BLOCK == 0 {
      CipherAt(text, iv, code, n, n - 1);
    }
  }
}
