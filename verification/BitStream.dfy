/** Bits in byte buffers, highest bit first, written and read one at a time. */
module BitStream {

  type Byte8 = bv8

  /** The mask of bit k of a byte, counted from the highest. */
  function Mask(k: nat): Byte8
    requires k < 8
  {
    match k
    case 0 => 0x80
    case 1 => 0x40
    case 2 => 0x20
    case 3 => 0x10
    case 4 => 0x08
    case 5 => 0x04
    case 6 => 0x02
    case 7 => 0x01
  }

  predicate BitAt(b: Byte8, k: nat)
    requires k < 8
  {
    b & Mask(k) != 0
  }

  /** Bit i of a buffer. */
  predicate StreamBit(buf: seq<Byte8>, i: nat)
    requires i < 8 * |buf|
  {
    BitAt(buf[i / 8], i % 8)
  }

  /** The first n bits of a buffer. */
  function StreamBits(buf: seq<Byte8>, n: nat): (bits: seq<bool>)
    requires n <= 8 * |buf|
    ensures |bits| == n
  {
    seq(n, i requires 0 <= i < n => StreamBit(buf, i))
  }

  lemma MasksDisjoint(k: nat, j: nat)
    requires k < 8 && j < 8 && k != j
    ensures Mask(k) & Mask(j) == 0
  {}

  lemma OrOther(b: Byte8, m: Byte8, n: Byte8)
    requires m & n == 0
    ensures (b | m) & n == b & n
  {}

  lemma OrSame(b: Byte8, m: Byte8)
    ensures (b | m) & m == m
  {}

  lemma MaskShift(k: nat)
    requires k < 8
    ensures Mask(k) != 0 && Mask(k) >> 1 == if k == 7 then 0 else Mask(k + 1)
  {}

  lemma ZeroHasNoBits(k: nat)
    requires k < 8
    ensures !BitAt(0, k)
  {}

  /** Setting one bit of a byte leaves the others alone. */
  lemma SetBit(b: Byte8, k: nat, j: nat)
    requires k < 8 && j < 8
    ensures BitAt(b | Mask(k), j) <==> j == k || BitAt(b, j)
  {
    if j == k {
      OrSame(b, Mask(k));
      MaskShift(k);
    } else {
      MasksDisjoint(k, j);
      OrOther(b, Mask(k), Mask(j));
    }
  }

  /** Shifting a bit down to the lowest place reads it. */
  lemma ShiftedBit(b: Byte8, left: nat)
    requires left < 8
    ensures (b >> left) & 1 == 1 <==> BitAt(b, 7 - left)
  {
    if left == 0 {
      assert b >> 0 == b;
    } else if left == 1 {
      assert (b >> 1) & 1 == 1 <==> b & 0x02 != 0;
    } else if left == 2 {
      assert (b >> 2) & 1 == 1 <==> b & 0x04 != 0;
    } else if left == 3 {
      assert (b >> 3) & 1 == 1 <==> b & 0x08 != 0;
    } else if left == 4 {
      assert (b >> 4) & 1 == 1 <==> b & 0x10 != 0;
    } else if left == 5 {
      assert (b >> 5) & 1 == 1 <==> b & 0x20 != 0;
    } else if left == 6 {
      assert (b >> 6) & 1 == 1 <==> b & 0x40 != 0;
    } else {
      assert (b >> 7) & 1 == 1 <==> b & 0x80 != 0;
    }
  }
}
