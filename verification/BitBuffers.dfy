/** The bit-wise output and input of the arithmetic coder. */
module BitBuffers {
  import opened BitStream

  class BitWriter {
    const buf: array<Byte8>
    var ptr: nat
    var mask: Byte8
    ghost var bits: seq<bool>

    ghost predicate Valid()
      reads this, buf
    {
      && ptr < buf.Length && |bits| / 8 == ptr
      && mask == Mask(|bits| % 8)
      && StreamBits(buf[..], |bits|) == bits
      && forall j :: |bits| % 8 <= j < 8 ==> !BitAt(buf[ptr], j)
    }

    constructor (out: array<Byte8>)
      requires out.Length > 0
      modifies out
      ensures Valid() && buf == out && bits == []
    {
      buf := out;
      ptr := 0;
      mask := 0x80;
      bits := [];
      new;
      out[0] := 0;
      forall j | 0 <= j < 8
        ensures !BitAt(buf[0], j)
      {
        ZeroHasNoBits(j);
      }
    }

    /** The bit goes where the mask points. */
    method Place(bit: bool)
      requires Valid()
      modifies this`bits, buf
      ensures bits == old(bits) + [bit] && StreamBits(buf[..], |bits|) == bits
      ensures forall j :: old(|bits|) % 8 < j < 8 ==> !BitAt(buf[ptr], j)
    {
      ghost var before := buf[..];
      if bit {
        buf[ptr] := buf[ptr] | mask;
      }
      Placed(before, buf[..], bits, bit);
      bits := bits + [bit];
    }

    /** The mask moves on; a byte that is full is followed by a cleared one. */
    method Advance()
      requires |bits| > 0 && ptr == (|bits| - 1) / 8 && mask == Mask((|bits| - 1) % 8)
      requires |bits| / 8 < buf.Length && StreamBits(buf[..], |bits|) == bits
      requires forall j :: (|bits| - 1) % 8 < j < 8 ==> !BitAt(buf[ptr], j)
      modifies this`mask, this`ptr, buf
      ensures Valid()
    {
      MaskShift((|bits| - 1) % 8);
      mask := mask >> 1;
      if mask == 0 {
        mask := 0x80;
        ptr := ptr + 1;
        ghost var filled := buf[..];
        buf[ptr] := 0;
        Cleared(filled, buf[..], |bits|);
      } else {
        MaskShift(7);
      }
    }

    method Put(bit: bool)
      requires Valid() && (|bits| + 1) / 8 < buf.Length
      modifies this, buf
      ensures Valid() && bits == old(bits) + [bit]
    {
      Place(bit);
      Advance();
    }
  }

  /** Setting bit n of a stream whose last byte is clear from there on appends it. */
  lemma Placed(before: seq<Byte8>, after: seq<Byte8>, bits: seq<bool>, bit: bool)
    requires |bits| < 8 * |before| && |after| == |before|
    requires StreamBits(before, |bits|) == bits
    requires forall j :: |bits| % 8 <= j < 8 ==> !BitAt(before[|bits| / 8], j)
    requires after == if bit then before[|bits| / 8 := before[|bits| / 8] | Mask(|bits| % 8)] else before
    ensures StreamBits(after, |bits| + 1) == bits + [bit]
    ensures forall j :: |bits| % 8 < j < 8 ==> !BitAt(after[|bits| / 8], j)
  {
    var n := |bits|;
    forall j | 0 <= j < 8
      ensures BitAt(after[n / 8], j) <==> (bit && j == n % 8) || BitAt(before[n / 8], j)
    {
      SetBit(before[n / 8], n % 8, j);
    }
    forall i | 0 <= i < n + 1
      ensures StreamBit(after, i) == (bits + [bit])[i]
    {
      if i < n {
        assert StreamBits(before, n)[i] == bits[i];
        if i / 8 == n / 8 {
          SamePlace(i, n);
        }
      }
    }
  }

  lemma SamePlace(i: nat, n: nat)
    requires i < n && i / 8 == n / 8
    ensures i % 8 < n % 8
  {}

  /** Clearing the byte after the first n bits does not change them. */
  lemma Cleared(filled: seq<Byte8>, after: seq<Byte8>, n: nat)
    requires n % 8 == 0 && n / 8 < |filled| && after == filled[n / 8 := 0]
    ensures StreamBits(after, n) == StreamBits(filled, n)
    ensures forall j :: 0 <= j < 8 ==> !BitAt(after[n / 8], j)
  {
    forall j | 0 <= j < 8
      ensures !BitAt(after[n / 8], j)
    {
      ZeroHasNoBits(j);
    }
  }

  class BitReader {
    const buf: array<Byte8>
    var ptr: nat
    var left: nat

    ghost predicate Valid()
      reads this
    {
      left <= 8 && Pos() <= 8 * buf.Length
    }

    /** The index of the next bit. */
    ghost function Pos(): nat
      reads this
      requires left <= 8
    {
      8 * ptr + 8 - left
    }

    constructor (input: array<Byte8>)
      requires input.Length > 0
      ensures Valid() && buf == input && Pos() == 0
    {
      buf := input;
      ptr := 0;
      left := 8;
    }

    method Get() returns (bit: bool)
      requires Valid() && Pos() < 8 * buf.Length
      modifies this
      ensures Valid() && Pos() == old(Pos()) + 1
      ensures bit == StreamBit(buf[..], old(Pos()))
    {
      if left == 0 {
        ptr := ptr + 1;
        left := 8;
      }
      left := left - 1;
      ShiftedBit(buf[ptr], left);
      bit := (buf[ptr] >> left) & 1 == 1;
    }
  }
}
