/** Encryption, decryption and authentication of byte buffers in place or from one buffer to another. */
module Rc5Buffers {
  import opened Rc5
  import opened Rc5Modes

  method Fill(dst: array<Byte>, bytes: seq<Byte>)
    requires |bytes| == dst.Length
    modifies dst
    ensures dst[..] == bytes
  {
    for j := 0 to |bytes|
      invariant forall k :: 0 <= k < j ==> dst[k] == bytes[k]
    {
      dst[j] := bytes[j];
    }
  }

  method EncryptBuffer(buf: array<Byte>, key: Table)
    requires buf.Length == BLOCK
    modifies buf
    ensures buf[..] == Cipher(key).e(old(buf[..]))
  {
    CipherOn(key, buf[..]);
    var p := Encrypt(Load(buf[..]), key);
    Fill(buf, Store(p));
  }

  method DecryptBuffer(buf: array<Byte>, key: Table)
    requires buf.Length == BLOCK
    modifies buf
    ensures buf[..] == Cipher(key).d(old(buf[..]))
  {
    CipherOn(key, buf[..]);
    var p := Decrypt(Load(buf[..]), key);
    Fill(buf, Store(p));
  }

  /** Bytes of src, from at on, are exclusive-ored into the head of the buffer. */
  method XorFrom(buf: array<Byte>, src: array<Byte>, at: nat, count: nat)
    requires buf.Length == BLOCK && buf != src && count <= BLOCK && at + count <= src.Length
    modifies buf
    ensures buf[..] == XorInto(old(buf[..]), src[at..at + count])
  {
    ghost var before := buf[..];
    for j := 0 to count
      invariant forall k :: 0 <= k < BLOCK ==> buf[k] == if k < j then XorBytes(before[k], src[at + k]) else before[k]
    {
      buf[j] := XorBytes(buf[j], src[at + j]);
    }
  }

  method Copy(src: array<Byte>, from: nat, dst: array<Byte>, to: nat, count: nat)
    requires from + count <= src.Length && to + count <= dst.Length
    requires src != dst || from + count <= to || to + count <= from
    modifies dst
    ensures dst[to..to + count] == old(src[from..from + count])
    ensures dst[..to] == old(dst[..to]) && dst[to + count..] == old(dst[to + count..])
  {
    ghost var before, bytes := dst[..], src[from..from + count];
    for j := 0 to count
      invariant forall k :: 0 <= k < dst.Length ==> dst[k] == if to <= k < to + j then bytes[k - to] else before[k]
      invariant src[from..from + count] == bytes
    {
      dst[to + j] := src[from + j];
    }
  }

  /** The whole blocks; the buffer tmp ends as the last chaining value. */
  method EncryptBlocks(plt: array<Byte>, enc: array<Byte>, tmp: array<Byte>, size: nat, count: nat,
                       ghost iv: Block, key: Table)
    requires BLOCK * count <= size <= plt.Length && size <= enc.Length && tmp != plt && tmp != enc
    requires tmp.Length == BLOCK && tmp[..] == iv
    modifies enc, tmp
    ensures tmp[..] == Chain(old(plt[..size]), iv, Cipher(key), count)
    ensures enc[..BLOCK * count] == CipherText(old(plt[..size]), iv, Cipher(key), count)
    ensures plt[BLOCK * count..size] == old(plt[BLOCK * count..size])
    ensures enc[size..] == old(enc[size..])
  {
    ghost var text, beyond, code := plt[..size], enc[size..], Cipher(key);
    for i := 0 to count
      invariant tmp[..] == Chain(text, iv, code, i) && enc[..BLOCK * i] == CipherText(text, iv, code, i)
      invariant plt[BLOCK * i..size] == text[BLOCK * i..] && enc[size..] == beyond
    {
      assert plt[BLOCK * i..BLOCK * i + BLOCK] == plt[BLOCK * i..size][..BLOCK] == Piece(text, i);
      XorFrom(tmp, plt, BLOCK * i, BLOCK);
      EncryptBuffer(tmp, key);
      CopyBlock(plt, enc, tmp, size, i);
    }
  }

  /** The buffer goes out as block i, and what is still to be encrypted stays. */
  method CopyBlock(plt: array<Byte>, enc: array<Byte>, tmp: array<Byte>, size: nat, i: nat)
    requires BLOCK * (i + 1) <= size <= plt.Length && size <= enc.Length
    requires tmp != plt && tmp != enc && tmp.Length == BLOCK
    modifies enc
    ensures enc[..BLOCK * (i + 1)] == old(enc[..BLOCK * i]) + tmp[..]
    ensures plt[BLOCK * (i + 1)..size] == old(plt[BLOCK * i..size])[BLOCK..] && enc[size..] == old(enc[size..])
  {
    ghost var at := BLOCK * (i + 1);
    ghost var after := enc[at..];
    Copy(tmp, 0, enc, BLOCK * i, BLOCK);
    assert enc[..at] == enc[..BLOCK * i] + enc[BLOCK * i..at];
    assert enc[at..] == after && enc[size..] == after[size - at..];
    if plt == enc {
      assert plt[at..size] == after[..size - at];
    }
  }

  /** plt and enc may be the same buffer. */
  method BlockEncrypt(plt: array<Byte>, enc: array<Byte>, size: nat, iv: Block, key: Table)
    requires BLOCK <= size <= plt.Length && size <= enc.Length
    modifies enc
    ensures enc[..size] == EncryptedText(old(plt[..size]), iv, Cipher(key))
    ensures enc[size..] == old(enc[size..])
  {
    ghost var text, code := plt[..size], Cipher(key);
    var tmp := new Byte[BLOCK](j requires 0 <= j < BLOCK => iv[j]);
    assert tmp[..] == iv;
    var count, rest := size / BLOCK, size % BLOCK;
    EncryptBlocks(plt, enc, tmp, size, count, iv, key);
    if rest > 0 {
      EncryptRest(plt, enc, tmp, size, count, key);
    }
  }

  /** The short block at the end takes its length from the last whole one. */
  method EncryptRest(plt: array<Byte>, enc: array<Byte>, tmp: array<Byte>, size: nat, count: nat, key: Table)
    requires size <= plt.Length && size <= enc.Length && tmp != plt && tmp != enc && tmp.Length == BLOCK
    requires 0 < count == size / BLOCK && size % BLOCK > 0
    requires enc[BLOCK * (count - 1)..BLOCK * count] == tmp[..]
    modifies enc, tmp
    ensures enc[..size] == old(enc[..BLOCK * (count - 1)]
      + Cipher(key).e(XorInto(tmp[..], plt[BLOCK * count..size])) + tmp[..size % BLOCK])
    ensures enc[size..] == old(enc[size..])
  {
    var from, rest := BLOCK * (count - 1), size % BLOCK;
    ghost var last := tmp[..];
    ghost var final := Cipher(key).e(XorInto(last, plt[BLOCK * count..size]));
    assert last[..rest] == enc[from..BLOCK * count][..rest] == enc[from..from + rest];
    XorFrom(tmp, plt, BLOCK * count, rest);
    EncryptBuffer(tmp, key);
    assert tmp[..] == final;
    Steal(enc, tmp, from, rest);
    assert size == from + BLOCK + rest;
  }

  /** The head of the block at from goes behind it, and the buffer takes its place. */
  method Steal(enc: array<Byte>, tmp: array<Byte>, from: nat, rest: nat)
    requires from + BLOCK + rest <= enc.Length && rest < BLOCK && tmp != enc && tmp.Length == BLOCK
    modifies enc
    ensures enc[..from + BLOCK + rest] == old(enc[..from]) + tmp[..] + old(enc[from..from + rest])
    ensures enc[from + BLOCK + rest..] == old(enc[from + BLOCK + rest..])
  {
    ghost var head, last, end := enc[..from], enc[from..from + rest], from + BLOCK + rest;
    Copy(enc, from, enc, from + BLOCK, rest);
    ghost var middle := enc[from + BLOCK..];
    assert enc[..from] == enc[..from + BLOCK][..from] == head && middle[..rest] == enc[from + BLOCK..end] == last;
    Copy(tmp, 0, enc, from, BLOCK);
    assert enc[..end] == enc[..from] + enc[from..from + BLOCK] + enc[from + BLOCK..][..rest];
    assert enc[end..] == enc[from + BLOCK..][rest..];
  }

  /** The exclusive-or of two buffers goes out as a block. */
  method XorOut(a: array<Byte>, b: array<Byte>, dst: array<Byte>, at: nat)
    requires a.Length == BLOCK && b.Length == BLOCK && at + BLOCK <= dst.Length && dst != a && dst != b
    modifies dst
    ensures dst[at..at + BLOCK] == XorInto(a[..], b[..])
    ensures dst[..at] == old(dst[..at]) && dst[at + BLOCK..] == old(dst[at + BLOCK..])
  {
    ghost var before := dst[..];
    for j := 0 to BLOCK
      invariant forall k :: 0 <= k < dst.Length ==>
        dst[k] == if at <= k < at + j then XorBytes(a[k - at], b[k - at]) else before[k]
    {
      dst[at + j] := XorBytes(a[j], b[j]);
    }
  }

  /** The state between two blocks: the last block as it came, as it was deciphered, and what it was chained to. */
  ghost predicate Between(c: seq<Byte>, iv: Block, code: Code, i: nat,
                          tmpIv: array<Byte>, tmpIn: array<Byte>, tmpEnc: array<Byte>)
    requires BLOCK * i <= |c|
    reads tmpIv, tmpIn, tmpEnc
  {
    i > 0 ==>
      && tmpEnc[..] == Piece(c, i - 1) && tmpIn[..] == code.d(Piece(c, i - 1))
      && tmpIv[..] == Previous(c, iv, i - 1)
  }

  ghost predicate Scratch(enc: array<Byte>, dec: array<Byte>,
                          tmpIv: array<Byte>, tmpIn: array<Byte>, tmpEnc: array<Byte>)
  {
    && tmpIv.Length == BLOCK && tmpIn.Length == BLOCK && tmpEnc.Length == BLOCK
    && tmpIv != tmpIn && tmpIv != tmpEnc && tmpIn != tmpEnc
    && enc != tmpIv && enc != tmpIn && enc != tmpEnc && dec != tmpIv && dec != tmpIn && dec != tmpEnc
  }

  /** The next block comes in, and the one before it becomes what it is chained to. */
  method TakeBlock(enc: array<Byte>, tmpIv: array<Byte>, tmpIn: array<Byte>, tmpEnc: array<Byte>,
                   ghost c: seq<Byte>, i: nat, iv: Block, key: Table)
    requires Scratch(enc, enc, tmpIv, tmpIn, tmpEnc) && BLOCK * (i + 1) <= |c| <= enc.Length
    requires Between(c, iv, Cipher(key), i, tmpIv, tmpIn, tmpEnc) && enc[BLOCK * i..BLOCK * (i + 1)] == Piece(c, i)
    modifies tmpIv, tmpIn, tmpEnc
    ensures Between(c, iv, Cipher(key), i + 1, tmpIv, tmpIn, tmpEnc)
  {
    if i == 0 {
      Fill(tmpIv, iv);
    } else {
      Copy(tmpEnc, 0, tmpIv, 0, BLOCK);
      assert tmpIv[..] == tmpIv[0..0 + BLOCK];
    }
    Copy(enc, BLOCK * i, tmpIn, 0, BLOCK);
    Copy(enc, BLOCK * i, tmpEnc, 0, BLOCK);
    assert tmpIn[..] == tmpIn[0..0 + BLOCK] && tmpEnc[..] == tmpEnc[0..0 + BLOCK];
    DecryptBuffer(tmpIn, key);
  }

  /** One block is deciphered and unchained. */
  method OpenBlock(enc: array<Byte>, dec: array<Byte>, tmpIv: array<Byte>, tmpIn: array<Byte>, tmpEnc: array<Byte>,
                   ghost c: seq<Byte>, i: nat, iv: Block, key: Table)
    requires Scratch(enc, dec, tmpIv, tmpIn, tmpEnc) && BLOCK * (i + 1) <= |c| <= enc.Length && |c| <= dec.Length
    requires Between(c, iv, Cipher(key), i, tmpIv, tmpIn, tmpEnc) && enc[BLOCK * i..|c|] == c[BLOCK * i..]
    modifies dec, tmpIv, tmpIn, tmpEnc
    ensures Between(c, iv, Cipher(key), i + 1, tmpIv, tmpIn, tmpEnc)
    ensures dec[..BLOCK * (i + 1)] == old(dec[..BLOCK * i]) + XorInto(Previous(c, iv, i), Cipher(key).d(Piece(c, i)))
    ensures enc[BLOCK * (i + 1)..|c|] == c[BLOCK * (i + 1)..] && dec[|c|..] == old(dec[|c|..])
  {
    ghost var at, next := BLOCK * i, BLOCK * (i + 1);
    assert enc[at..next] == enc[at..|c|][..BLOCK] == Piece(c, i);
    TakeBlock(enc, tmpIv, tmpIn, tmpEnc, c, i, iv, key);
    assert enc[next..|c|] == enc[at..|c|][BLOCK..] == c[next..];
    XorOut(tmpIv, tmpIn, dec, BLOCK * i);
    assert dec[|c|..] == dec[next..][|c| - next..];
    assert dec[next..|c|] == dec[next..][..|c| - next];
    assert dec[..next] == dec[..at] + dec[at..at + BLOCK];
  }

  method DecryptBlocks(enc: array<Byte>, dec: array<Byte>, tmpIv: array<Byte>, tmpIn: array<Byte>, tmpEnc: array<Byte>,
                       ghost c: seq<Byte>, count: nat, iv: Block, key: Table)
    requires Scratch(enc, dec, tmpIv, tmpIn, tmpEnc) && BLOCK * count <= |c| <= enc.Length && |c| <= dec.Length
    requires enc[..|c|] == c
    modifies dec, tmpIv, tmpIn, tmpEnc
    ensures Between(c, iv, Cipher(key), count, tmpIv, tmpIn, tmpEnc)
    ensures dec[..BLOCK * count] == PlainText(c, iv, Cipher(key), count)
    ensures enc[BLOCK * count..|c|] == c[BLOCK * count..] && dec[|c|..] == old(dec[|c|..])
  {
    ghost var beyond := dec[|c|..];
    for i := 0 to count
      invariant Between(c, iv, Cipher(key), i, tmpIv, tmpIn, tmpEnc)
      invariant dec[..BLOCK * i] == PlainText(c, iv, Cipher(key), i)
      invariant enc[BLOCK * i..|c|] == c[BLOCK * i..] && dec[|c|..] == beyond
    {
      OpenBlock(enc, dec, tmpIv, tmpIn, tmpEnc, c, i, iv, key);
    }
  }

  /** The short end is unmixed from the block before it, which gives that block back its end. */
  method OpenRest(enc: array<Byte>, dec: array<Byte>, tmpIn: array<Byte>, tmpEnc: array<Byte>, at: nat, rest: nat)
    requires tmpIn.Length == BLOCK && tmpEnc.Length == BLOCK && tmpIn != tmpEnc && rest < BLOCK
    requires enc != tmpIn && enc != tmpEnc && dec != tmpIn && dec != tmpEnc
    requires at + rest <= enc.Length && at + rest <= dec.Length
    modifies dec, tmpIn, tmpEnc
    ensures dec[at..at + rest] == XorInto(old(tmpIn[..]), old(enc[at..at + rest]))[..rest]
    ensures tmpIn[..] == old(enc[at..at + rest]) + old(tmpIn[rest..])
    ensures dec[..at] == old(dec[..at]) && dec[at + rest..] == old(dec[at + rest..])
  {
    ghost var tail, before, mixed := enc[at..at + rest], dec[..], tmpIn[..];
    for j := 0 to rest
      invariant tmpIn[..] == mixed
      invariant forall k :: at + j <= k < at + rest ==> enc[k] == tail[k - at]
      invariant forall k :: 0 <= k < j ==> tmpEnc[k] == tail[k]
      invariant forall k :: 0 <= k < dec.Length ==>
        dec[k] == if at <= k < at + j then XorBytes(mixed[k - at], tail[k - at]) else before[k]
    {
      tmpEnc[j] := enc[at + j];
      dec[at + j] := XorBytes(tmpIn[j], enc[at + j]);
    }
    assert dec[at..at + rest] == XorInto(mixed, tail)[..rest];
    for j := 0 to rest
      modifies tmpIn
      invariant forall k :: 0 <= k < BLOCK ==> tmpIn[k] == if k < j then tail[k] else mixed[k]
    {
      tmpIn[j] := tmpEnc[j];
    }
    assert tmpIn[..] == tail + mixed[rest..];
  }

  lemma SameEnd(s: seq<Byte>, t: seq<Byte>, at: nat, end: nat)
    requires |s| == |t| && at <= end <= |s| && s[at..] == t[at..]
    ensures s[at..end] == t[at..end] && s[end..] == t[end..]
  {
    assert s[at..end] == s[at..][..end - at] && s[end..] == s[at..][end - at..];
    assert t[at..end] == t[at..][..end - at] && t[end..] == t[at..][end - at..];
  }

  lemma SameStart(s: seq<Byte>, t: seq<Byte>, from: nat, at: nat)
    requires |s| == |t| && from <= at <= |s| && s[..at] == t[..at]
    ensures s[..from] == t[..from]
  {
    assert s[..from] == s[..at][..from] && t[..from] == t[..at][..from];
  }

  /** The short end and the block before it. */
  method DecryptRest(enc: array<Byte>, dec: array<Byte>, tmpIv: array<Byte>, tmpIn: array<Byte>, tmpEnc: array<Byte>,
                     from: nat, at: nat, rest: nat, key: Table, ghost mixed: Block, ghost tail: seq<Byte>)
    requires Scratch(enc, dec, tmpIv, tmpIn, tmpEnc) && rest < BLOCK && at == from + BLOCK
    requires at + rest <= enc.Length && at + rest <= dec.Length
    requires mixed == tmpIn[..] && tail == enc[at..at + rest]
    modifies dec, tmpIn, tmpEnc
    ensures dec[..from] == old(dec[..from]) && dec[at + rest..] == old(dec[at + rest..])
    ensures dec[from..at] == XorInto(Cipher(key).d(tail + mixed[rest..]), tmpIv[..])
    ensures dec[at..at + rest] == XorInto(mixed, tail)[..rest]
  {
    ghost var first := dec[..];
    OpenRest(enc, dec, tmpIn, tmpEnc, at, rest);
    ghost var second := dec[..];
    SameStart(first, second, from, at);
    DecryptBuffer(tmpIn, key);
    XorOut(tmpIn, tmpIv, dec, from);
    SameEnd(second, dec[..], at, at + rest);
  }

  lemma PlainHead(s: seq<Byte>, c: seq<Byte>, iv: Block, code: Code, n: nat)
    requires n > 0 && BLOCK * n <= |s| && BLOCK * n <= |c| && s[..BLOCK * n] == PlainText(c, iv, code, n)
    ensures s[..BLOCK * (n - 1)] == PlainText(c, iv, code, n - 1)
  {
    assert s[..BLOCK * (n - 1)] == s[..BLOCK * n][..BLOCK * (n - 1)];
  }

  lemma Joined(s: seq<Byte>, from: nat, at: nat, size: nat)
    requires from <= at <= size <= |s|
    ensures s[..size] == s[..from] + s[from..at] + s[at..size]
  {
  }

  lemma DecryptedInParts(s: seq<Byte>, c: seq<Byte>, iv: Block, code: Code, n: nat, mixed: Block, tail: seq<Byte>)
    requires 0 < n == |c| / BLOCK && |c| % BLOCK > 0 && |s| >= |c|
    requires mixed == code.d(Piece(c, n - 1)) && tail == c[BLOCK * n..]
    requires s[..BLOCK * (n - 1)] == PlainText(c, iv, code, n - 1)
    requires s[BLOCK * (n - 1)..BLOCK * n] == XorInto(code.d(tail + mixed[|tail|..]), Previous(c, iv, n - 1))
    requires s[BLOCK * n..|c|] == XorInto(mixed, tail)[..|tail|]
    ensures s[..|c|] == DecryptedText(c, iv, code)
  {
    Joined(s, BLOCK * (n - 1), BLOCK * n, |c|);
  }

  method DecryptShort(enc: array<Byte>, dec: array<Byte>, tmpIv: array<Byte>, tmpIn: array<Byte>, tmpEnc: array<Byte>,
                      ghost c: seq<Byte>, size: nat, count: nat, ghost iv: Block, key: Table)
    requires Scratch(enc, dec, tmpIv, tmpIn, tmpEnc) && |c| == size <= enc.Length && size <= dec.Length
    requires 0 < count == size / BLOCK && size % BLOCK > 0
    requires Between(c, iv, Cipher(key), count, tmpIv, tmpIn, tmpEnc)
    requires dec[..BLOCK * count] == PlainText(c, iv, Cipher(key), count)
    requires enc[BLOCK * count..size] == c[BLOCK * count..]
    modifies dec, tmpIn, tmpEnc
    ensures dec[..size] == DecryptedText(c, iv, Cipher(key)) && dec[size..] == old(dec[size..])
  {
    var from, at, rest := BLOCK * (count - 1), BLOCK * count, size % BLOCK;
    ghost var mixed, tail := tmpIn[..], c[at..];
    PlainHead(dec[..], c, iv, Cipher(key), count);
    DecryptRest(enc, dec, tmpIv, tmpIn, tmpEnc, from, at, rest, key, mixed, tail);
    DecryptedInParts(dec[..], c, iv, Cipher(key), count, mixed, tail);
  }

  /** enc and dec may be the same buffer. */
  method BlockDecrypt(enc: array<Byte>, dec: array<Byte>, size: nat, iv: Block, key: Table)
    requires BLOCK <= size <= enc.Length && size <= dec.Length
    modifies dec
    ensures dec[..size] == DecryptedText(old(enc[..size]), iv, Cipher(key))
    ensures dec[size..] == old(dec[size..])
  {
    ghost var c := enc[..size];
    var tmpIv, tmpIn, tmpEnc := new Byte[BLOCK], new Byte[BLOCK], new Byte[BLOCK];
    var count, rest := size / BLOCK, size % BLOCK;
    DecryptBlocks(enc, dec, tmpIv, tmpIn, tmpEnc, c, count, iv, key);
    if rest > 0 {
      DecryptShort(enc, dec, tmpIv, tmpIn, tmpEnc, c, size, count, iv, key);
    }
  }

  method ChainBlocks(plt: array<Byte>, tmp: array<Byte>, size: nat, count: nat, ghost iv: Block, key: Table)
    requires BLOCK * count <= size <= plt.Length && tmp != plt && tmp.Length == BLOCK && tmp[..] == iv
    modifies tmp
    ensures tmp[..] == Chain(plt[..size], iv, Cipher(key), count)
  {
    for i := 0 to count
      invariant tmp[..] == Chain(plt[..size], iv, Cipher(key), i)
    {
      assert plt[BLOCK * i..BLOCK * i + BLOCK] == Piece(plt[..size], i);
      XorFrom(tmp, plt, BLOCK * i, BLOCK);
      EncryptBuffer(tmp, key);
    }
  }

  /** The code is written only if it fits in a block. */
  method BlockMac(plt: array<Byte>, size: nat, mac: array<Byte>, macSize: nat, iv: Block, key: Table)
    requires size <= plt.Length && macSize <= mac.Length
    modifies mac
    ensures macSize <= BLOCK ==> mac[..macSize] == Final(old(plt[..size]), iv, Cipher(key))[..macSize]
    ensures macSize <= BLOCK ==> mac[macSize..] == old(mac[macSize..])
    ensures macSize > BLOCK ==> mac[..] == old(mac[..])
  {
    var tmp := new Byte[BLOCK](j requires 0 <= j < BLOCK => iv[j]);
    assert tmp[..] == iv;
    var count, rest := size / BLOCK, size % BLOCK;
    ChainBlocks(plt, tmp, size, count, iv, key);
    if rest > 0 {
      assert plt[BLOCK * count..BLOCK * count + rest] == plt[..size][BLOCK * count..];
      XorFrom(tmp, plt, BLOCK * count, rest);
      EncryptBuffer(tmp, key);
    }
    assert tmp[..] == Final(plt[..size], iv, Cipher(key));
    if macSize <= BLOCK {
      Copy(tmp, 0, mac, 0, macSize);
      assert mac[..macSize] == mac[0..0 + macSize];
    }
  }
}
