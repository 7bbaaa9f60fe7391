/** The Reed-Solomon encoder and decoder over their static scratch arrays. */
module Fec {
  import opened Field
  import opened Polynomials
  import opened BerlekampMassey
  import opened ReedSolomon
  import opened FecSpec
  import G = Gf256

  method Xor(a: Elt, b: Elt) returns (r: Elt)
    ensures r == Add(a, b)
  {
    AddBytes(a.byte, b.byte);
    r := Elt(a.byte ^ b.byte);
  }

  // The register of galois_init: its eight cells are the bits of a power of the generator.

  predicate IsBit(b: bv8) {
    b == 0 || b == 1
  }

  function Pack(p1: bv8, p2: bv8, p3: bv8, p4: bv8, p5: bv8, p6: bv8, p7: bv8, p8: bv8): bv8 {
    p1 + p2 * 2 + p3 * 4 + p4 * 8 + p5 * 16 + p6 * 32 + p7 * 64 + p8 * 128
  }

  lemma BitsStayBits(a: bv8, b: bv8)
    requires IsBit(a) && IsBit(b)
    ensures IsBit(a ^ b)
  {}

  lemma PackStep(p1: bv8, p2: bv8, p3: bv8, p4: bv8, p5: bv8, p6: bv8, p7: bv8, p8: bv8)
    requires IsBit(p1) && IsBit(p2) && IsBit(p3) && IsBit(p4)
    requires IsBit(p5) && IsBit(p6) && IsBit(p7) && IsBit(p8)
    ensures Pack(p8, p1, p2 ^ p8, p3 ^ p8, p4 ^ p8, p5, p6, p7)
         == G.Xtime(Pack(p1, p2, p3, p4, p5, p6, p7, p8))
  {}

  // The tables.

  ghost predicate ExpReady(exp: array<Elt>, n: nat)
    reads exp
  {
    exp.Length == 512 && n <= 511 && forall i :: 0 <= i < n ==> exp[i] == Alpha(i)
  }

  ghost predicate LogReady(log: array<nat>, n: nat)
    reads log
  {
    log.Length == 256 && n <= 256 && log[0] == 0
    && forall v :: 1 <= v < n ==> log[v] < 255 && Alpha(log[v]).byte as int == v
  }

  lemma AlphaStep(i: nat)
    ensures Alpha(i + 1) == Elt(G.Xtime(Alpha(i).byte))
    ensures Alpha(i + 255) == Alpha(i)
  {
    AlphaByte(i);
    AlphaByte(i + 1);
    AlphaPlus(i, 255);
    AlphaUnits();
    MulOne(Alpha(i));
  }

  method FillPowers(exp: array<Elt>)
    requires exp.Length == 512
    modifies exp
    ensures ExpReady(exp, 511)
  {
    var pinit: bv8, p1: bv8, p2: bv8, p3: bv8, p4: bv8 := 0, 1, 0, 0, 0;
    var p5: bv8, p6: bv8, p7: bv8, p8: bv8 := 0, 0, 0, 0;
    exp[0] := Elt(1);
    exp[255] := Elt(1);
    AlphaUnits();
    assert Pack(p1, p2, p3, p4, p5, p6, p7, p8) == 1;
    for i := 1 to 256
      invariant IsBit(p1) && IsBit(p2) && IsBit(p3) && IsBit(p4)
      invariant IsBit(p5) && IsBit(p6) && IsBit(p7) && IsBit(p8)
      invariant Alpha(i - 1) == Elt(Pack(p1, p2, p3, p4, p5, p6, p7, p8))
      invariant forall k :: 0 <= k < i ==> exp[k] == Alpha(k)
      invariant forall k :: 256 <= k < i + 255 ==> exp[k] == Alpha(k)
    {
      PackStep(p1, p2, p3, p4, p5, p6, p7, p8);
      BitsStayBits(p4, p8);
      BitsStayBits(p3, p8);
      BitsStayBits(p2, p8);
      AlphaStep(i - 1);
      AlphaStep(i);
      pinit := p8;
      p8 := p7;
      p7 := p6;
      p6 := p5;
      p5 := p4 ^ pinit;
      p4 := p3 ^ pinit;
      p3 := p2 ^ pinit;
      p2 := p1;
      p1 := pinit;
      exp[i] := Elt(Pack(p1, p2, p3, p4, p5, p6, p7, p8));
      exp[i + 255] := exp[i];
    }
  }

  method FillLogarithms(exp: array<Elt>, log: array<nat>)
    requires ExpReady(exp, 511) && log.Length == 256
    modifies log
    ensures LogReady(log, 256)
  {
    log[0] := 0;
    for i := 1 to 256
      invariant LogReady(log, i)
    {
      LogOfByte(i);
      var z := 0;
      while z < 256 && exp[z].byte as int != i
        invariant z <= 255 && forall k: nat :: k < z ==> Alpha(k).byte as int != i
      {
        z := z + 1;
      }
      log[i] := z;
    }
  }

  lemma LogOfByte(v: int)
    requires 1 <= v < 256
    ensures exists k: nat :: k < 255 && Alpha(k).byte as int == v
  {
    var b := ByteOf(v);
    NonzeroByte(b);
    LogExists(Elt(b));
    var k: nat :| k < 255 && Alpha(k) == Elt(b);
    assert Alpha(k).byte as int == v;
  }

  lemma NotLast(b: bv8)
    requires b as int < 255
    ensures b < 255
  {
  }

  lemma Successor(b: bv8)
    requires b < 255
    ensures (b + 1) as int == b as int + 1
  {
  }

  lemma {:induction false} ByteOf(v: nat) returns (b: bv8)
    requires v < 256
    ensures b as int == v
  {
    if v == 0 {
      b := 0;
    } else {
      b := ByteOf(v - 1);
      NotLast(b);
      Successor(b);
      b := b + 1;
    }
  }

  lemma NonzeroByte(b: bv8)
    requires b as int != 0
    ensures b != 0
  {
  }

  // Facts about single coefficients that the loops need.

  lemma {:induction false} ConvSnoc(f: Poly, c: Elt, s: seq<Elt>, m: int)
    requires m < |s|
    ensures Conv(f + [c], s, m)
         == Add(Conv(f, s, m), if m < |f| then Zero else Mul(c, s[m - |f|]))
  {
    if m < 0 {
      AddZero(Zero);
    } else if f == [] {
      assert (f + [c])[1..] == [];
      AddComm(Zero, Mul(c, s[m]));
    } else {
      assert (f + [c])[1..] == f[1..] + [c];
      ConvSnoc(f[1..], c, s, m - 1);
      AddAssoc(Mul(f[0], s[m]), Conv(f[1..], s, m - 1), if m < |f| then Zero else Mul(c, s[m - |f|]));
    }
  }

  lemma {:induction false} ConvAgree(f: Poly, s: seq<Elt>, t: seq<Elt>, m: int)
    requires m < |s| && m < |t| && forall i :: 0 <= i <= m ==> s[i] == t[i]
    ensures Conv(f, s, m) == Conv(f, t, m)
  {
    if f != [] && m >= 0 {
      ConvAgree(f[1..], s, t, m - 1);
    }
  }

  lemma EvalSnoc(f: Poly, c: Elt, z: Elt)
    ensures Eval(f + [c], z) == Add(Eval(f, z), Mul(Pow(z, |f|), c))
  {
    var g := f + [c];
    EvalSplit(g, |f|, z);
    assert g[..|f|] == f;
    assert g[|f|..] == [c];
    assert [c][1..] == [];
    MulZero(z, Zero);
    AddZero(c);
  }

  lemma InverseUnique(a: Elt, b: Elt)
    requires a != Zero && Mul(a, b) == One
    ensures b == Inv(a)
  {
    MulAssoc(b, a, Inv(a));
    MulComm(a, b);
    MulOne(b);
    MulOne(Inv(a));
  }

  lemma LogOf(log: array<nat>, a: Elt)
    requires LogReady(log, 256) && a != Zero
    ensures 0 <= a.byte as int < 256
    ensures log[a.byte as int] < 255 && Alpha(log[a.byte as int]) == a
  {
    if a.byte as int == 0 {
      G.AsIntInjective(a.byte, 0);
    }
    G.AsIntInjective(Alpha(log[a.byte as int]).byte, a.byte);
  }

  class Fec {
    var parity: nat
    const exp: array<Elt>
    const log: array<nat>
    const poly: array<Elt>
    const lfsr: array<Elt>
    const check: array<Elt>
    const syn: array<Elt>
    const lambda: array<Elt>
    const omega: array<Elt>
    const locations: array<nat>
    const tmp1: array<Elt>
    const product: array<Elt>

    ghost predicate Valid()
    {
      && exp.Length == 512 && log.Length == 256 && lfsr.Length == 9 && check.Length == 8
      && syn.Length == lambda.Length == omega.Length == locations.Length == 16
      && poly.Length == tmp1.Length == product.Length == 32
      && poly != tmp1 && poly != product && tmp1 != product
      && syn != lambda && syn != omega && lambda != omega
    }

    ghost predicate Tables()
      reads exp, log
    {
      Valid() && ExpReady(exp, 511) && LogReady(log, 256)
    }

    /** Multiplication by logarithms. */
    method Gmult(a: Elt, b: Elt) returns (r: Elt)
      requires Tables()
      ensures r == Mul(a, b)
    {
      MulZero(a, b);
      if a == Zero || b == Zero {
        return Zero;
      }
      LogOf(log, a);
      LogOf(log, b);
      var i := log[a.byte as int];
      var j := log[b.byte as int];
      AlphaPlus(i, j);
      r := exp[i + j];
    }

    /** Division into one; the zero entry of the logarithm table makes it one for zero. */
    method Ginv(a: Elt) returns (r: Elt)
      requires Tables()
      ensures r == if a == Zero then One else Inv(a)
    {
      AlphaUnits();
      if a == Zero {
        assert a.byte as int == 0;
      } else {
        LogOf(log, a);
        var i := log[a.byte as int];
        AlphaPlus(i, 255 - i);
        InverseUnique(a, Alpha(255 - i));
      }
      r := exp[255 - log[a.byte as int]];
    }

    /** c * p2, with zeros after it. */
    method ScaledRow(p2: array<Elt>, c: Elt)
      requires Tables() && 1 <= parity <= 8 && p2.Length >= 2 * parity && p2 != tmp1
      modifies tmp1
      ensures forall j :: 0 <= j < 4 * parity ==> tmp1[j] == if j < 2 * parity then Mul(p2[j], c) else Zero
    {
      var p := parity;
      for j := 2 * p to 4 * p
        invariant forall k :: 2 * p <= k < j ==> tmp1[k] == Zero
      {
        tmp1[j] := Zero;
      }
      for j := 0 to 2 * p
        invariant forall k :: 0 <= k < j ==> tmp1[k] == Mul(p2[k], c)
        invariant forall k :: 2 * p <= k < 4 * p ==> tmp1[k] == Zero
      {
        var m := Gmult(p2[j], c);
        tmp1[j] := m;
      }
    }

    /** The row moves up by i places in place. */
    method ShiftRow(i: nat)
      requires Valid() && 1 <= parity <= 8 && i < 2 * parity
      modifies tmp1
      ensures forall j :: 0 <= j < 4 * parity ==> tmp1[j] == if i <= j then old(tmp1[..])[j - i] else Zero
    {
      ghost var row := tmp1[..];
      var j := 4 * parity - 1;
      while j >= i
        invariant i - 1 <= j < 4 * parity
        invariant forall k :: 0 <= k <= j ==> tmp1[k] == row[k]
        invariant forall k :: j < k < 4 * parity ==> tmp1[k] == row[k - i]
      {
        tmp1[j] := tmp1[j - i];
        j := j - 1;
      }
      for j := 0 to i
        invariant forall k :: 0 <= k < j ==> tmp1[k] == Zero
        invariant forall k :: i <= k < 4 * parity ==> tmp1[k] == row[k - i]
      {
        tmp1[j] := Zero;
      }
    }

    /** The coefficients of p2 that the product uses, with zeros after them. */
    ghost function Padded(p2: array<Elt>): (s: seq<Elt>)
      requires p2.Length >= 2 * parity
      reads this, p2
      ensures |s| == 4 * parity
      ensures forall j :: 0 <= j < |s| ==> s[j] == if j < 2 * parity then p2[j] else Zero
    {
      p2[..2 * parity] + seq(2 * parity, j => Zero)
    }

    method Clear(dst: array<Elt>, n: nat)
      requires n <= dst.Length
      modifies dst
      ensures forall m :: 0 <= m < n ==> dst[m] == Zero
    {
      for m := 0 to n
        invariant forall k :: 0 <= k < m ==> dst[k] == Zero
      {
        dst[m] := Zero;
      }
    }

    /** The product of two polynomials of 2 * parity coefficients. */
    method MultPolys(dst: array<Elt>, p1: array<Elt>, p2: array<Elt>)
      requires Tables() && 1 <= parity <= 8
      requires p1.Length >= 2 * parity && p2.Length >= 2 * parity && dst.Length >= 4 * parity
      requires p1 != tmp1 && p2 != tmp1 && p1 != dst && p2 != dst && dst != tmp1 && dst != exp
      modifies tmp1, dst
      ensures forall m :: 0 <= m < 4 * parity ==> dst[m] == Conv(p1[..2 * parity], Padded(p2), m)
    {
      var p := parity;
      ghost var s, f := Padded(p2), p1[..2 * p];
      Clear(dst, 4 * p);
      for i := 0 to 2 * p
        invariant Tables() && s == Padded(p2) && p1[..2 * p] == f
        invariant forall m :: 0 <= m < 4 * p ==> dst[m] == Conv(f[..i], s, m)
      {
        assert f[..i] + [f[i]] == f[..i + 1];
        AddProduct(dst, p2, i, f[..i], p1[i], s);
      }
      assert f[..2 * p] == f;
    }

    /** The next coefficient of the one polynomial times the other is added. */
    method AddProduct(dst: array<Elt>, p2: array<Elt>, i: nat, ghost f: Poly, c: Elt, ghost s: seq<Elt>)
      requires Tables() && 1 <= parity <= 8 && i < 2 * parity
      requires p2.Length >= 2 * parity && dst.Length >= 4 * parity
      requires p2 != tmp1 && p2 != dst && dst != tmp1 && dst != exp
      requires s == Padded(p2) && |f| == i
      requires forall m :: 0 <= m < 4 * parity ==> dst[m] == Conv(f, s, m)
      modifies tmp1, dst
      ensures forall m :: 0 <= m < 4 * parity ==> dst[m] == Conv(f + [c], s, m)
    {
      BuildRow(p2, c, i, s);
      AddRow(dst, f, c, s);
    }

    /** c * p2, moved up by i places, with zeros around it. */
    method BuildRow(p2: array<Elt>, c: Elt, i: nat, ghost s: seq<Elt>)
      requires Tables() && 1 <= parity <= 8 && i < 2 * parity
      requires p2.Length >= 2 * parity && p2 != tmp1 && s == Padded(p2)
      modifies tmp1
      ensures forall j :: 0 <= j < 4 * parity ==>
        tmp1[j] == if i <= j < i + 2 * parity then Mul(s[j - i], c) else Zero
    {
      ScaledRow(p2, c);
      ghost var row := tmp1[..];
      assert forall j :: 0 <= j < 4 * parity ==> row[j] == if j < 2 * parity then Mul(s[j], c) else Zero;
      ShiftRow(i);
    }

    /** The row is added to the sum of the rows before it. */
    method AddRow(dst: array<Elt>, ghost f: Poly, ghost c: Elt, ghost s: seq<Elt>)
      requires Valid() && dst.Length >= 4 * parity && parity <= 8 && dst != tmp1 && |s| == 4 * parity
      requires |f| < 2 * parity
      requires forall j :: 2 * parity <= j < 4 * parity ==> s[j] == Zero
      requires forall j :: 0 <= j < 4 * parity ==>
        tmp1[j] == if |f| <= j < |f| + 2 * parity then Mul(s[j - |f|], c) else Zero
      requires forall m :: 0 <= m < 4 * parity ==> dst[m] == Conv(f, s, m)
      modifies dst
      ensures forall m :: 0 <= m < 4 * parity ==> dst[m] == Conv(f + [c], s, m)
    {
      for j := 0 to 4 * parity
        invariant forall m :: 0 <= m < j ==> dst[m] == Conv(f + [c], s, m)
        invariant forall m :: j <= m < 4 * parity ==> dst[m] == Conv(f, s, m)
      {
        ConvSnoc(f, c, s, j);
        if j >= |f| {
          MulComm(c, s[j - |f|]);
          MulZero(c, Zero);
        }
        dst[j] := Xor(dst[j], tmp1[j]);
      }
    }

    // Encoding.

    /** The array holds the coefficients of f, and zeros after them. */
    ghost predicate Holds(a: array<Elt>, f: Poly)
      requires a.Length >= 2 * parity
      reads this, a
    {
      |f| <= 2 * parity && forall m :: 0 <= m < 2 * parity ==> a[m] == if m < |f| then f[m] else Zero
    }

    method ZeroPoly(a: array<Elt>)
      requires a.Length >= 2 * parity
      modifies a
      ensures Holds(a, [])
      ensures forall m :: 2 * parity <= m < a.Length ==> a[m] == old(a[m])
    {
      for i := 0 to 2 * parity
        invariant forall m :: 0 <= m < i ==> a[m] == Zero
        invariant forall m :: 2 * parity <= m < a.Length ==> a[m] == old(a[m])
      {
        a[i] := Zero;
      }
    }

    /** The factor z + Alpha(i). */
    method LoadFactor(tp: array<Elt>, i: nat)
      requires Tables() && 1 <= parity <= 8 && 1 <= i <= parity && tp.Length == 256
      modifies tp
      ensures Holds(tp, [Alpha(i), One])
    {
      ZeroPoly(tp);
      tp[0] := exp[i];
      tp[1] := One;
    }

    /** The polynomial one. */
    method LoadOne(tp: array<Elt>)
      requires parity <= 8 && tp.Length == 256
      modifies tp
      ensures parity >= 1 ==> Holds(tp, Generator(0))
    {
      ZeroPoly(tp);
      tp[0] := One;
    }

    /** The generator is the product of z + Alpha(i) for i up to the number of parity bytes. None is computed without
        parity bytes. */
    method ComputeGeneratorPoly()
      requires Tables() && parity <= 8
      modifies poly, tmp1
      ensures parity >= 1 ==> forall k :: 0 <= k <= parity ==> poly[k] == Generator(parity)[k]
      ensures parity == 0 ==> poly[..] == old(poly[..])
    {
      var p := parity;
      var tp, tp1 := new Elt[256], new Elt[256];
      LoadOne(tp1);
      for i := 1 to p + 1
        invariant p >= 1 ==> Holds(tp1, Generator(i - 1))
        invariant if i > 1 then Holds(poly, Generator(i - 1)) else poly[..] == old(poly[..])
      {
        LoadFactor(tp, i);
        MultByFactor(tp, tp1, i);
        CopyPoly(tp1, poly, Generator(i));
      }
    }

    method CopyPoly(dst: array<Elt>, src: array<Elt>, ghost f: Poly)
      requires dst.Length >= 2 * parity && src.Length >= 2 * parity && dst != src && Holds(src, f)
      modifies dst
      ensures Holds(dst, f)
    {
      for k := 0 to 2 * parity
        invariant forall m :: 0 <= m < k ==> dst[m] == src[m]
      {
        dst[k] := src[k];
      }
    }

    method MultByFactor(tp: array<Elt>, tp1: array<Elt>, i: nat)
      requires Tables() && 1 <= parity <= 8 && 1 <= i <= parity && tp.Length == tp1.Length == 256
      requires Holds(tp, [Alpha(i), One]) && Holds(tp1, Generator(i - 1))
      modifies poly, tmp1
      ensures Holds(poly, Generator(i))
    {
      ghost var f, s := tp[..2 * parity], Padded(tp1);
      MultPolys(poly, tp, tp1);
      forall m | 0 <= m < 2 * parity
        ensures poly[m] == if m < i + 1 then Generator(i)[m] else Zero
      {
        GeneratorCoefficient(f, s, i, m);
      }
    }

    ghost predicate Ready()
      reads this, exp, log, poly
    {
      Tables() && 1 <= parity <= 8 && forall k :: 0 <= k <= parity ==> poly[k] == Generator(parity)[k]
    }

    constructor (parityBytes: nat)
      requires parityBytes <= 8
      ensures Tables() && parity == parityBytes && (parityBytes >= 1 ==> Ready())
      ensures fresh(exp) && fresh(log) && fresh(poly) && fresh(lfsr) && fresh(check) && fresh(syn)
      ensures fresh(lambda) && fresh(omega) && fresh(locations) && fresh(tmp1) && fresh(product)
    {
      parity := parityBytes;
      exp, log, poly := new Elt[512], new nat[256], new Elt[32];
      lfsr, check := new Elt[9], new Elt[8];
      syn, lambda, omega, locations := new Elt[16], new Elt[16], new Elt[16], new nat[16];
      tmp1, product := new Elt[32], new Elt[32];
      new;
      FillPowers(exp);
      FillLogarithms(exp, log);
      ComputeGeneratorPoly();
    }

    /** The register moves up, from the top cell down, and the generator times b is added. */
    method ShiftRegister(b: Elt)
      requires Tables() && 1 <= parity <= 8
      modifies lfsr
      ensures lfsr[0] == Mul(poly[0], b)
      ensures forall j :: 0 < j < parity ==> lfsr[j] == Add(old(lfsr[..])[j - 1], Mul(poly[j], b))
    {
      ghost var reg := lfsr[..];
      var j := parity - 1;
      while j > 0
        invariant 0 <= j < parity
        invariant forall k :: 0 <= k <= j ==> lfsr[k] == reg[k]
        invariant forall k :: j < k < parity ==> lfsr[k] == Add(reg[k - 1], Mul(poly[k], b))
      {
        var m := Gmult(poly[j], b);
        lfsr[j] := Xor(lfsr[j - 1], m);
        j := j - 1;
      }
      lfsr[0] := Gmult(poly[0], b);
    }

    /** A message byte enters the register. */
    method FeedRegister(byte: Elt)
      requires Ready()
      modifies lfsr
      ensures lfsr[..parity] == Feed(old(lfsr[..parity]), Generator(parity), byte)
    {
      ghost var reg := lfsr[..parity];
      var b := Xor(byte, lfsr[parity - 1]);
      ShiftRegister(b);
      FeedIs(reg, Generator(parity), byte, b, lfsr[..parity]);
    }

    method ClearRegister()
      requires Valid() && 1 <= parity <= 8
      modifies lfsr
      ensures lfsr[..parity] == Register([], parity)
    {
      for i := 0 to parity + 1
        invariant forall k :: 0 <= k < i ==> lfsr[k] == Zero
      {
        lfsr[i] := Zero;
      }
    }

    /** The whole message passes through the register. */
    method FeedMessage(buf: array<Elt>, len: nat)
      requires Ready() && len <= buf.Length && buf != lfsr
      modifies lfsr
      ensures lfsr[..parity] == Register(buf[..len], parity)
    {
      ClearRegister();
      assert buf[..0] == [];
      for i := 0 to len
        invariant lfsr[..parity] == Register(buf[..i], parity)
      {
        FeedRegister(buf[i]);
        assert buf[..i + 1][..i] == buf[..i];
      }
    }

    /** The parity bytes of the first len bytes go behind them. */
    method Encode(buf: array<Elt>, len: nat, par: array<Elt>, at: nat)
      requires Ready() && len <= buf.Length && at + parity <= par.Length
      requires buf != lfsr && par != lfsr && par != check
      modifies par, lfsr, check
      ensures par[..at] == old(par[..at])
      ensures par[at..at + parity] == Parity(old(buf[..len]), parity)
      ensures par[at + parity..] == old(par[at + parity..])
    {
      FeedMessage(buf, len);
      SaveCheck();
      BuildCodeword(par, at);
    }

    method SaveCheck()
      requires Valid() && parity <= 8
      modifies check
      ensures check[..parity] == lfsr[..parity]
    {
      for i := 0 to parity
        invariant check[..i] == lfsr[..i]
      {
        check[i] := lfsr[i];
      }
    }

    /** The check bytes go out highest first. */
    method BuildCodeword(par: array<Elt>, at: nat)
      requires Valid() && parity <= 8 && at + parity <= par.Length && par != check
      modifies par
      ensures par[..at] == old(par[..at])
      ensures par[at..at + parity] == Reverse(check[..parity])
      ensures par[at + parity..] == old(par[at + parity..])
    {
      ghost var out := Reverse(check[..parity]);
      for i := 0 to parity
        invariant par[..at] == old(par[..at])
        invariant par[at..at + i] == out[..i]
        invariant par[at + parity..] == old(par[at + parity..])
      {
        par[at + i] := check[parity - 1 - i];
      }
    }

    // Decoding: the locator polynomial.

    method ComputeDiscrepancy(len: nat, n: nat) returns (sum: Elt)
      requires Tables() && len <= n < parity <= 8
      ensures sum == Conv(tmp1[..len + 1], syn[..parity], n)
    {
      sum := Zero;
      ghost var s := syn[..parity];
      for i := 0 to len + 1
        invariant sum == Conv(tmp1[..i], s, n)
      {
        ConvSnoc(tmp1[..i], tmp1[i], s, n);
        assert tmp1[..i] + [tmp1[i]] == tmp1[..i + 1];
        var m := Gmult(tmp1[i], syn[n - i]);
        sum := Xor(sum, m);
      }
    }

    /** psi + delta * d, into the upper half of the scratch array. */
    method NextPsi(delta: Elt)
      requires Tables() && 1 <= parity <= 8
      modifies tmp1
      ensures tmp1[..2 * parity] == old(tmp1[..2 * parity])
      ensures tmp1[2 * parity..4 * parity] == Plus(tmp1[..2 * parity], Scale(delta, product[..2 * parity]))
    {
      var w := 2 * parity;
      ghost var psi := tmp1[..w];
      for i := 0 to w
        invariant tmp1[..w] == psi
        invariant forall k :: 0 <= k < i ==> tmp1[w + k] == Add(psi[k], Mul(delta, product[k]))
      {
        var m := Gmult(delta, product[i]);
        assert tmp1[i] == psi[i];
        tmp1[w + i] := Xor(tmp1[i], m);
      }
    }

    /** d becomes psi / delta. */
    method ScalePsi(delta: Elt)
      requires Tables() && 1 <= parity <= 8 && delta != Zero
      modifies product
      ensures product[..2 * parity] == Scale(Inv(delta), tmp1[..2 * parity])
    {
      for i := 0 to 2 * parity
        invariant forall k :: 0 <= k < i ==> product[k] == Mul(Inv(delta), tmp1[k])
      {
        var v := Ginv(delta);
        MulComm(tmp1[i], v);
        product[i] := Gmult(tmp1[i], v);
      }
    }

    method CommitPsi()
      requires Valid() && 1 <= parity <= 8
      modifies tmp1
      ensures tmp1[..2 * parity] == old(tmp1[2 * parity..4 * parity])
    {
      var w := 2 * parity;
      ghost var next := tmp1[w..2 * w];
      for i := 0 to w
        invariant forall k :: 0 <= k < i ==> tmp1[k] == next[k]
        invariant tmp1[w..2 * w] == next
      {
        assert tmp1[w + i] == next[i];
        tmp1[i] := tmp1[w + i];
      }
    }

    method MulZ()
      requires Valid() && 1 <= parity <= 8
      modifies product
      ensures product[..2 * parity] == TimesZ(old(product[..2 * parity]))
      ensures product[2 * parity..] == old(product[2 * parity..])
    {
      var w := 2 * parity;
      ghost var d := product[..w];
      var i := w - 1;
      while i > 0
        invariant 0 <= i < w
        invariant product[w..] == old(product[w..])
        invariant forall k :: 0 <= k <= i ==> product[k] == d[k]
        invariant forall k :: i < k < w ==> product[k] == d[k - 1]
      {
        product[i] := product[i - 1];
        i := i - 1;
      }
      product[0] := Zero;
    }

    /** The arrays, the length and the index are the state st. */
    ghost predicate Represents(st: State, len: nat, k: int)
      requires Valid() && parity <= 8
      reads this, tmp1, product
    {
      tmp1[..2 * parity] == st.psi && product[..2 * parity] == st.d && len == st.len && k == st.k
    }

    /** The correction of psi, which becomes the next d if the length changes. */
    method Revise(delta: Elt, change: bool)
      requires Tables() && 1 <= parity <= 8 && delta != Zero
      modifies tmp1, product
      ensures tmp1[..2 * parity] == Plus(old(tmp1[..2 * parity]), Scale(delta, old(product[..2 * parity])))
      ensures product[..2 * parity] ==
        if change then Scale(Inv(delta), old(tmp1[..2 * parity])) else old(product[..2 * parity])
    {
      NextPsi(delta);
      if change {
        ScalePsi(delta);
      }
      CommitPsi();
    }

    /** psi and d after the discrepancy is known. */
    method Adjust(delta: Elt, n: nat, len: nat, k: int) returns (len': nat, k': int)
      requires Tables() && 1 <= parity <= 8
      modifies tmp1, product
      ensures tmp1[..2 * parity] == if delta == Zero then old(tmp1[..2 * parity])
        else Plus(old(tmp1[..2 * parity]), Scale(delta, old(product[..2 * parity])))
      ensures product[..2 * parity] == TimesZ(if delta != Zero && len < n - k
        then Scale(Inv(delta), old(tmp1[..2 * parity])) else old(product[..2 * parity]))
      ensures (len', k') == if delta != Zero && len < n - k then (n - k, n - len) else (len, k)
    {
      len', k' := len, k;
      if delta != Zero {
        var change := len < n - k;
        Revise(delta, change);
        if change {
          len' := n - k;
          k' := n - len;
        }
      }
      MulZ();
    }

    method Round(n: nat, len: nat, k: int, ghost st: State) returns (len': nat, k': int)
      requires Tables() && 1 <= parity <= 8 && n < parity
      requires Represents(st, len, k) && Shape(st, syn[..parity], n, 2 * parity)
      modifies tmp1, product
      ensures Represents(Step(st, syn[..parity], n), len', k')
    {
      ghost var s := syn[..parity];
      assert tmp1[..len + 1] == st.psi[..len + 1];
      var delta := ComputeDiscrepancy(len, n);
      assert delta == Discrepancy(st, s, n);
      len', k' := Adjust(delta, n, len, k);
    }

    /** The polynomial one, kept in the upper half of the product array. */
    method InitGamma()
      requires Valid() && 1 <= parity <= 8
      modifies tmp1, product
      ensures product[2 * parity..4 * parity] == Constant(2 * parity)
    {
      var w := 2 * parity;
      for i := 0 to w
        invariant forall m :: w <= m < w + i ==> product[m] == Zero
      {
        product[w + i] := Zero;
        tmp1[i] := Zero;
      }
      product[w] := One;
      forall m | 0 <= m < w
        ensures product[w..2 * w][m] == Constant(w)[m]
      {
        assert product[w..2 * w][m] == product[w + m];
      }
    }

    method CopyGamma(dst: array<Elt>, ghost gamma: Poly)
      requires Valid() && 1 <= parity <= 8 && (dst == product || dst == tmp1)
      requires |gamma| == 2 * parity && product[2 * parity..4 * parity] == gamma
      modifies dst
      ensures dst[..2 * parity] == gamma && product[2 * parity..4 * parity] == gamma
    {
      var w := 2 * parity;
      for i := 0 to w
        invariant product[w..2 * w] == gamma
        invariant dst[..i] == gamma[..i]
      {
        assert product[w + i] == product[w..2 * w][i];
        dst[i] := product[w + i];
      }
    }

    method StartState()
      requires Valid() && 1 <= parity <= 8
      modifies tmp1, product
      ensures Represents(Init(2 * parity), 0, -1)
    {
      InitGamma();
      CopyGamma(product, Constant(2 * parity));
      MulZ();
      CopyGamma(tmp1, Constant(2 * parity));
    }

    method BerlekampMassey()
      requires Tables() && 1 <= parity <= 8
      modifies tmp1, product, lambda
      ensures lambda[..2 * parity] == Run(syn[..parity], parity, 2 * parity).psi
    {
      RunRounds();
      SaveLambda();
    }

    method RunRounds()
      requires Tables() && 1 <= parity <= 8
      modifies tmp1, product
      ensures tmp1[..2 * parity] == Run(syn[..parity], parity, 2 * parity).psi
    {
      ghost var s, p, w := syn[..parity], parity, 2 * parity;
      ghost var states := seq(p + 1, n requires 0 <= n <= p => Run(s, n, w));
      StartState();
      var len, k := 0, -1;
      for n := 0 to parity
        invariant Represents(states[n], len, k) && syn[..parity] == s
      {
        len, k := NextRound(n, len, k, s, states[n], states[n + 1]);
      }
    }

    method NextRound(n: nat, len: nat, k: int, ghost s: seq<Elt>, ghost st: State, ghost next: State)
      returns (len': nat, k': int)
      requires Tables() && 1 <= parity <= 8 && n < parity && s == syn[..parity]
      requires st == Run(s, n, 2 * parity) && next == Run(s, n + 1, 2 * parity) && Represents(st, len, k)
      modifies tmp1, product
      ensures Represents(next, len', k')
    {
      len', k' := Round(n, len, k, st);
    }

    method SaveLambda()
      requires Valid() && 1 <= parity <= 8
      modifies lambda
      ensures lambda[..2 * parity] == tmp1[..2 * parity]
    {
      for i := 0 to 2 * parity
        invariant lambda[..i] == tmp1[..i]
      {
        lambda[i] := tmp1[i];
      }
    }

    // Decoding: error locations and values.

    /** The low coefficients of the product of the locator polynomial and the syndromes. */
    method ComputeOmega(ghost f: Poly)
      requires Tables() && 1 <= parity <= 8 && Holds(lambda, f)
      modifies tmp1, product, omega
      ensures Holds(omega, ConvAll(f, syn[..parity]))
    {
      ghost var s, g := syn[..parity], lambda[..2 * parity];
      MultPolys(product, lambda, syn);
      ghost var t, w := Padded(syn), ConvAll(f, s);
      forall i | 0 <= i < parity
        ensures product[i] == w[i]
      {
        OmegaCoefficient(f, g, s, t, i);
      }
      KeepLow(w);
    }

    method KeepLow(ghost w: seq<Elt>)
      requires Valid() && 1 <= parity <= 8 && |w| == parity
      requires forall i :: 0 <= i < parity ==> product[i] == w[i]
      modifies omega
      ensures Holds(omega, w)
    {
      ZeroPoly(omega);
      for i := 0 to parity
        invariant forall m :: 0 <= m < i ==> omega[m] == w[m]
        invariant forall m :: i <= m < 2 * parity ==> omega[m] == Zero
      {
        omega[i] := product[i];
      }
    }

    /** The polynomial in the array at Alpha(e), from the powers in the table. */
    method EvalArray(a: array<Elt>, e: nat, n: nat, ghost f: Poly) returns (sum: Elt)
      requires Tables() && 1 <= parity <= 8 && a.Length >= 2 * parity
      requires Holds(a, f) && |f| <= n <= 2 * parity
      ensures sum == Eval(f, Alpha(e))
    {
      sum := Zero;
      for k := 0 to n
        invariant sum == Eval(a[..k], Alpha(e))
      {
        EvalSnoc(a[..k], a[k], Alpha(e));
        assert a[..k] + [a[k]] == a[..k + 1];
        PowIndex(e, k);
        var m := Gmult(exp[(k * e) % 255], a[k]);
        sum := Xor(sum, m);
      }
      EvalExtended(f, a[..n], Alpha(e));
    }

    method FindRoots(ghost f: Poly) returns (count: nat)
      requires Tables() && 1 <= parity <= 8 && Holds(lambda, f) && |f| <= parity + 1
      modifies locations
      ensures count <= 8 && locations[..count] == Located(f)
    {
      count := 0;
      for r := 1 to 256
        invariant count < 8 && locations[..count] == Locations(f, r - 1)
      {
        var sum := EvalArray(lambda, r, parity + 1, f);
        if sum == Zero {
          locations[count] := 255 - r;
          count := count + 1;
          assert locations[..count] == Locations(f, r);
          if count >= 8 {
            LocationsPrefix(f, r, 255);
            return;
          }
        }
      }
    }

    method OddTerm(e: nat, j: nat) returns (m: Elt)
      requires Tables() && 1 <= j < lambda.Length
      ensures m == Mul(lambda[j], Pow(Alpha(e), j - 1))
    {
      PowIndex(e, j - 1);
      m := Gmult(lambda[j], exp[((j - 1) * e) % 255]);
    }

    /** The odd coefficients of the locator polynomial, one power lower: its derivative. */
    method DerivLambda(e: nat, ghost f: Poly) returns (sum: Elt)
      requires Tables() && 1 <= parity <= 8 && Holds(lambda, f)
      ensures sum == Deriv(f, Alpha(e))
    {
      sum := Zero;
      ghost var y, g := Alpha(e), lambda[..2 * parity];
      var j := 1;
      while j < 2 * parity
        invariant 1 <= j <= 2 * parity + 1 && j % 2 == 1
        invariant sum == Deriv(g[..j - 1], y)
      {
        DerivPair(g, j, y);
        var m := OddTerm(e, j);
        sum := Xor(sum, m);
        j := j + 2;
      }
      assert g[..j - 1] == g;
      DerivExtended(f, g, y);
    }

    method ErrorAtLocation(loc: nat, ghost f: Poly, ghost s: seq<Elt>) returns (err: Elt)
      requires Tables() && 1 <= parity <= 8 && loc < 255
      requires Holds(lambda, f) && Holds(omega, ConvAll(f, s))
      ensures err == ErrorValue(f, s, loc)
    {
      var num := EvalArray(omega, 255 - loc, 2 * parity, ConvAll(f, s));
      var denom := DerivLambda(255 - loc, f);
      var inverse := Ginv(denom);
      err := Gmult(num, inverse);
    }

    method FindLocator(ghost f: Poly)
      requires Tables() && 1 <= parity <= 8 && f == Locator(syn[..parity], 2 * parity)
      modifies tmp1, product, lambda
      ensures Holds(lambda, f)
    {
      BerlekampMassey();
      LocatorFilled(syn[..parity], 2 * parity);
      ghost var psi := lambda[..2 * parity];
      assert forall m :: 0 <= m < 2 * parity ==> lambda[m] == psi[m];
    }

    /** The locator polynomial, its error evaluator and the error locations. */
    method Analyse(ghost f: Poly) returns (count: nat)
      requires Tables() && 1 <= parity <= 8 && f == Locator(syn[..parity], 2 * parity)
      modifies tmp1, product, lambda, omega, locations
      ensures Holds(lambda, f) && Holds(omega, ConvAll(f, syn[..parity]))
      ensures count <= 8 && locations[..count] == Located(f)
    {
      FindLocator(f);
      ComputeOmega(f);
      count := FindRoots(f);
    }

    /** What the error values are computed from. */
    ghost predicate Analysed(f: Poly, s: seq<Elt>)
      reads this, exp, log, lambda, omega
    {
      Tables() && 1 <= parity <= 8 && Holds(lambda, f) && Holds(omega, ConvAll(f, s))
    }

    /** An error value is added at its location. */
    method AddTo(buf: array<Elt>, len: nat, loc: nat, err: Elt, ghost word: seq<Elt>)
      requires loc < |word| == len <= buf.Length && buf[..len] == word
      modifies buf
      ensures buf[..len] == word[len - 1 - loc := Add(word[len - 1 - loc], err)]
      ensures buf[len..] == old(buf[len..])
    {
      buf[len - loc - 1] := Xor(buf[len - loc - 1], err);
    }

    /** The error value of the next location is added. */
    method ApplyNext(buf: array<Elt>, len: nat, loc: nat, ghost f: Poly, ghost s: seq<Elt>,
                     ghost word: seq<Elt>, ghost next: seq<Elt>)
      requires Analysed(f, s) && buf != lambda && buf != omega && buf != exp
      requires loc < len == |word| <= buf.Length && loc < 255 && IsNext(word, f, s, loc, next)
      requires buf[..len] == word
      modifies buf
      ensures buf[..len] == next
      ensures buf[len..] == old(buf[len..]) && Analysed(f, s)
    {
      var err := ErrorAtLocation(loc, f, s);
      AddTo(buf, len, loc, err, word);
    }

    /** One error value after the other is added, at the locations found. */
    method ApplyAll(buf: array<Elt>, len: nat, count: nat, ghost f: Poly, ghost s: seq<Elt>,
                    ghost words: seq<seq<Elt>>)
      requires Analysed(f, s) && len <= buf.Length && count <= 8 && AreStages(words, len, f, s, locations[..count])
      requires buf != lambda && buf != omega && buf != exp && buf[..len] == words[0]
      modifies buf
      ensures buf[..len] == words[count]
      ensures buf[len..] == old(buf[len..])
    {
      ghost var locs := locations[..count];
      for r := 0 to count
        invariant buf[..len] == words[r] && buf[len..] == old(buf[len..])
        invariant Analysed(f, s) && locations[..count] == locs
      {
        assert locations[r] == locs[r];
        ApplyNext(buf, len, locations[r], f, s, words[r], words[r + 1]);
      }
    }

    /** The error values are added to the len last bytes of the buffer's used part. */
    method Apply(buf: array<Elt>, len: nat, count: nat, ghost f: Poly, ghost s: seq<Elt>, ghost locs: seq<nat>)
      requires Analysed(f, s) && len <= buf.Length && count <= 8
      requires buf != lambda && buf != omega && buf != exp
      requires locs == locations[..count] && AllBelow(locs, len) && AllBelow(locs, 255)
      modifies buf
      ensures buf[..len] == Corrected(old(buf[..len]), f, s, locs)
      ensures buf[len..] == old(buf[len..])
    {
      StagesFollow(buf[..len], f, s, locs);
      ApplyAll(buf, len, count, f, s, Stages(buf[..len], f, s, locs));
    }

    /** So many bytes of an array are taken in behind those before them. */
    method Gather(a: array<Elt>, from: nat, n: nat, j: nat, before: Elt, ghost head: seq<Elt>) returns (sum: Elt)
      requires Tables() && from + n <= a.Length && j < 8 && before == Horner(head, Alpha(j + 1))
      ensures sum == Horner(head + a[from..from + n], Alpha(j + 1))
    {
      sum := before;
      assert head + a[from..from] == head;
      for i := 0 to n
        invariant sum == Horner(head + a[from..from + i], Alpha(j + 1))
      {
        HornerNext(head, a[from..from + n], i, Alpha(j + 1));
        assert a[from..from + n][..i] == a[from..from + i] && a[from..from + n][..i + 1] == a[from..from + i + 1];
        var m := Gmult(exp[j + 1], sum);
        sum := Xor(a[from + i], m);
      }
    }

    /** The received word at Alpha(j + 1), message first, then parity. */
    method ComputeSyndrome(buf: array<Elt>, len: nat, par: array<Elt>, at: nat, j: nat) returns (sum: Elt)
      requires Tables() && 1 <= parity <= 8 && len <= buf.Length && at + parity <= par.Length && j < parity
      ensures sum == Syndrome(buf[..len] + par[at..at + parity], j)
    {
      sum := Gather(buf, 0, len, j, Zero, []);
      assert [] + buf[0..len] == buf[..len];
      sum := Gather(par, at, parity, j, sum, buf[..len]);
    }

    /** All syndromes, and whether one of them is not zero. */
    method ComputeSyndromes(buf: array<Elt>, len: nat, par: array<Elt>, at: nat, ghost word: seq<Elt>)
      returns (nonzero: bool)
      requires Tables() && 1 <= parity <= 8 && len <= buf.Length && at + parity <= par.Length
      requires buf != syn && par != syn && word == buf[..len] + par[at..at + parity]
      modifies syn
      ensures syn[..parity] == Syndromes(word, parity)
      ensures nonzero <==> !IsCodeword(word, parity)
    {
      for j := 0 to parity
        invariant buf[..len] + par[at..at + parity] == word
        invariant forall k :: 0 <= k < j ==> syn[k] == Syndrome(word, k)
      {
        syn[j] := ComputeSyndrome(buf, len, par, at, j);
      }
      nonzero := false;
      for j := 0 to parity
        invariant nonzero <==> exists k :: 0 <= k < j && Syndrome(word, k) != Zero
      {
        if syn[j] != Zero {
          nonzero := true;
        }
      }
    }

    method AllInside(count: nat, n: nat) returns (inside: bool)
      requires Valid() && count <= 8
      ensures inside <==> forall i :: 0 <= i < count ==> locations[i] < n
    {
      for r := 0 to count
        invariant forall i :: 0 <= i < r ==> locations[i] < n
      {
        if locations[r] >= n {
          return false;
        }
      }
      return true;
    }

    method CorrectErrors(buf: array<Elt>, n: nat, ghost s: seq<Elt>) returns (status: Status)
      requires Tables() && 1 <= parity <= 8 && n <= 255 && n <= buf.Length && s == syn[..parity]
      requires buf != lambda && buf != omega && buf != exp && buf != tmp1 && buf != product
      modifies buf, tmp1, product, lambda, omega, locations
      ensures (status, buf[..n]) == Correct(old(buf[..n]), s)
      ensures buf[n..] == old(buf[n..])
    {
      ghost var f := Locator(s, 2 * parity);
      var count := Analyse(f);
      ghost var locs := Located(f);
      assert forall i :: 0 <= i < count ==> locations[i] == locs[i];
      if 0 < count <= parity {
        var inside := AllInside(count, n);
        if !inside {
          return UncorrectableErrors;
        }
        Apply(buf, n, count, f, s, locs);
        return CorrectedErrors;
      } else {
        return UncorrectableErrors;
      }
    }

    /** The first n bytes of the buffer are corrected, unless all syndromes are zero. */
    method CorrectUnlessZero(nonzero: bool, buf: array<Elt>, n: nat, ghost s: seq<Elt>, ghost out: (Status, seq<Elt>))
      returns (status: Status)
      requires Tables() && 1 <= parity <= 8 && n <= 255 && n <= buf.Length && s == syn[..parity]
      requires buf != lambda && buf != omega && buf != exp && buf != tmp1 && buf != product
      requires out == if nonzero then Correct(buf[..n], s) else (NoErrors, buf[..n])
      modifies buf, tmp1, product, lambda, omega, locations
      ensures (status, buf[..n]) == out
      ensures buf[n..] == old(buf[n..])
    {
      if !nonzero {
        return NoErrors;
      }
      status := CorrectErrors(buf, n, s);
    }

    /**
     Decoding takes the syndromes of the len bytes of message and of the parity, wherever that is, and makes the
     corrections in place in the message and in the bytes behind it. What FecSpec.Decode promises for up to parity / 2
     wrong bytes is FecSpec.DecodeCorrects.
     */
    method Decode(buf: array<Elt>, len: nat, par: array<Elt>, at: nat) returns (status: Status)
      requires Tables() && 1 <= parity <= 8 && len + parity <= 255
      requires len + parity <= buf.Length && at + parity <= par.Length && par != syn
      requires buf != lambda && buf != omega && buf != exp && buf != tmp1 && buf != product && buf != syn
      modifies buf, syn, tmp1, product, lambda, omega, locations
      ensures var word := old(buf[..len] + par[at..at + parity]);
        && status == FecSpec.Decode(word, parity).0
        && buf[..len + parity] == Changed(old(buf[..len + parity]), word, FecSpec.Decode(word, parity).1)
        && buf[..len] == FecSpec.Decode(word, parity).1[..len]
      ensures par == buf && at == len ==>
        (status, buf[..len + parity]) == FecSpec.Decode(old(buf[..len + parity]), parity)
      ensures buf[len + parity..] == old(buf[len + parity..])
    {
      ghost var b, word := buf[..len + parity], buf[..len] + par[at..at + parity];
      assert b[..len] == word[..len];
      DecodedAs(b, word, len, parity);
      ghost var decoded := FecSpec.Decode(word, parity);
      var nonzero := ComputeSyndromes(buf, len, par, at, word);
      assert buf[..len + parity] == b;
      status := CorrectUnlessZero(nonzero, buf, len + parity, Syndromes(word, parity),
                                  (decoded.0, Changed(b, word, decoded.1)));
      assert buf[..len] == buf[..len + parity][..len];
      assert par == buf && at == len ==> b == word;
    }
  }

  lemma HornerNext(head: seq<Elt>, tail: seq<Elt>, i: nat, x: Elt)
    requires i < |tail|
    ensures Horner(head + tail[..i + 1], x) == Add(tail[i], Mul(x, Horner(head + tail[..i], x)))
  {
    var word := head + tail[..i + 1];
    assert word[..|word| - 1] == head + tail[..i] && word[|word| - 1] == tail[i];
  }

  lemma DecodedAs(b: seq<Elt>, word: seq<Elt>, len: nat, p: nat)
    requires len <= |b| == |word| && b[..len] == word[..len] && 1 <= p
    ensures var out := FecSpec.Decode(word, p).1;
      && Changed(b, word, out)[..len] == out[..len] && (b == word ==> Changed(b, word, out) == out)
      && (FecSpec.Decode(word, p).0, Changed(b, word, out)) ==
           if IsCodeword(word, p) then (NoErrors, b) else Correct(b, Syndromes(word, p))
  {
    var out := FecSpec.Decode(word, p).1;
    ChangedApart(b, word, out, len);
    ChangedOwn(word, out);
    if IsCodeword(word, p) {
      NothingChanged(b, word);
    } else {
      CorrectChanges(b, word, Syndromes(word, p));
    }
  }

  lemma ChangedOwn(word: seq<Elt>, out: seq<Elt>)
    requires |word| == |out|
    ensures Changed(word, word, out) == out
  {
    ChangedApart(word, word, out, |word|);
    assert Changed(word, word, out)[..|word|] == Changed(word, word, out) && out[..|word|] == out;
  }

  lemma OmegaCoefficient(f: Poly, g: Poly, s: seq<Elt>, t: seq<Elt>, i: nat)
    requires |f| <= |g| && i < |s| <= |t|
    requires forall k :: 0 <= k < |g| ==> g[k] == if k < |f| then f[k] else Zero
    requires forall k :: 0 <= k < |s| ==> t[k] == s[k]
    ensures Conv(g, t, i) == Conv(f, s, i)
  {
    assert g[..|f|] == f;
    ConvTrim(g, |f|, t, i);
    ConvAgree(f, s, t, i);
  }

  lemma DerivPair(g: Poly, j: nat, y: Elt)
    requires 1 <= j < |g| && j % 2 == 1
    ensures Deriv(g[..j + 1], y) == Add(Deriv(g[..j - 1], y), Mul(g[j], Pow(y, j - 1)))
  {
    DerivSnoc(g[..j - 1], g[j - 1], y);
    assert g[..j - 1] + [g[j - 1]] == g[..j];
    DerivSnoc(g[..j], g[j], y);
    assert g[..j] + [g[j]] == g[..j + 1];
  }

  lemma PowIndex(r: nat, k: nat)
    ensures (k * r) % 255 >= 0 && Alpha((k * r) % 255) == Pow(Alpha(r), k)
  {
    AlphaMod(k * r, k * r / 255);
    PowIsAlpha(r, k);
  }

  lemma {:induction false} AlphaMod(n: nat, q: nat)
    requires q * 255 <= n
    ensures Alpha(n) == Alpha(n - q * 255)
  {
    if q > 0 {
      AlphaMod(n, q - 1);
      AlphaStep(n - q * 255);
    }
  }

  lemma {:induction false} PowIsAlpha(r: nat, k: nat)
    ensures k * r >= 0 && Alpha(k * r) == Pow(Alpha(r), k)
  {
    if k == 0 {
      AlphaUnits();
    } else {
      PowIsAlpha(r, k - 1);
      assert k * r == r + (k - 1) * r;
      AlphaPlus(r, (k - 1) * r);
    }
  }

  lemma {:induction false} LocationsPrefix(f: Poly, r: nat, n: nat)
    requires r <= n <= 255
    ensures Locations(f, r) <= Locations(f, n)
  {
    if r < n {
      LocationsPrefix(f, r, n - 1);
    }
  }

  /** One coefficient more: the derivative changes only for an odd power. */
  lemma {:induction false} DerivSnoc(f: Poly, c: Elt, y: Elt)
    ensures Deriv(f + [c], y)
         == if |f| % 2 == 1 then Add(Deriv(f, y), Mul(c, Pow(y, |f| - 1))) else Deriv(f, y)
  {
    if f == [] {
      assert [c][1..] == [];
      assert (f + [c])[1..] == [];
      MulZero(y, Zero);
      AddZero(Zero);
    } else {
      var g := f[1..];
      assert (f + [c])[1..] == g + [c];
      DerivSnoc(g, c, y);
      EvalSnoc(g, c, y);
      var e, d, t := Eval(g, y), Deriv(g, y), Mul(c, Pow(y, |g|));
      MulComm(c, Pow(y, |g|));
      if |g| % 2 == 1 {
        var u := Mul(c, Pow(y, |g| - 1));
        MulAdd(y, d, u);
        MulSwap(y, c, Pow(y, |g| - 1));
        AddFour(e, t, Mul(y, d), t);
        AddZero(t);
        AddZero(Add(e, Mul(y, d)));
      } else {
        AddComm(e, t);
        AddAssoc(t, e, Mul(y, d));
        AddComm(t, Add(e, Mul(y, d)));
      }
    }
  }

  lemma {:induction false} DerivExtended(f: Poly, g: Poly, y: Elt)
    requires |f| <= |g|
    requires forall i :: 0 <= i < |g| ==> g[i] == if i < |f| then f[i] else Zero
    ensures Deriv(g, y) == Deriv(f, y)
  {
    if f == [] {
      DerivIsQuotient(g, y);
      EvalOfZeroQuotient(g, y);
    } else {
      DerivExtended(f[1..], g[1..], y);
      EvalExtended(f[1..], g[1..], y);
    }
  }

  lemma {:induction false} EvalOfZeroQuotient(g: Poly, y: Elt)
    requires IsZero(g)
    ensures Eval(Quot(g, y), y) == Zero
  {
    forall i | 0 <= i < |Quot(g, y)|
      ensures Quot(g, y)[i] == Zero
    {
      QuotAt(g, y, i);
      EvalOfZero(g[i + 1..], y);
    }
    EvalOfZero(Quot(g, y), y);
  }

  lemma FeedIs(reg: seq<Elt>, g: Poly, byte: Elt, b: Elt, next: seq<Elt>)
    requires |g| == |reg| + 1 == |next| + 1 && reg != [] && b == Add(byte, reg[|reg| - 1])
    requires next[0] == Mul(g[0], b)
    requires forall j :: 0 < j < |reg| ==> next[j] == Add(reg[j - 1], Mul(g[j], b))
    ensures next == Feed(reg, g, byte)
  {}

  lemma GeneratorCoefficient(f: Poly, s: seq<Elt>, i: nat, m: nat)
    requires 1 <= i && m < |s| && 2 <= |f|
    requires f[0] == Alpha(i) && f[1] == One && forall k :: 2 <= k < |f| ==> f[k] == Zero
    requires forall k :: 0 <= k < |s| ==> s[k] == if k < i then Generator(i - 1)[k] else Zero
    ensures Conv(f, s, m) == if m < i + 1 then Generator(i)[m] else Zero
  {
    ConvTrim(f, 2, s, m);
    assert f[..2] == [Alpha(i), One];
    ConvLinear(Alpha(i), s, m);
    MulZero(Alpha(i), Zero);
    AddZero(Zero);
    if m < i + 1 {
      GeneratorAt(i, m);
    }
  }

  lemma GeneratorAt(i: nat, m: nat)
    requires 1 <= i && m < i + 1
    ensures Generator(i)[m] == Add(Mul(Alpha(i), if m < i then Generator(i - 1)[m] else Zero),
                                   if m == 0 then Zero else Generator(i - 1)[m - 1])
  {
    assert GeneratorRoots(i)[1..] == GeneratorRoots(i - 1);
  }

  /** The product of c + z and a series. */
  lemma ConvLinear(c: Elt, s: seq<Elt>, m: nat)
    requires m < |s|
    ensures Conv([c, One], s, m) == Add(Mul(c, s[m]), if m == 0 then Zero else s[m - 1])
  {
    assert [c, One][1..] == [One];
    assert Conv([c, One], s, m) == Add(Mul(c, s[m]), Conv([One], s, m - 1));
    if m > 0 {
      assert [One][1..] == [];
      assert Conv([One], s, m - 1) == Add(Mul(One, s[m - 1]), Conv([], s, m - 2));
      MulOne(s[m - 1]);
      AddZero(s[m - 1]);
    }
  }

  /** The array of the Berlekamp-Massey loop holds the locator and zeros behind it. */
  lemma LocatorFilled(s: seq<Elt>, width: nat)
    requires |s| < width
    ensures var f, psi := Locator(s, width), Run(s, |s|, width).psi;
      |f| <= width == |psi| && forall m :: 0 <= m < width ==> psi[m] == if m < |f| then f[m] else Zero
  {
  }

  // The words that correction passes through.

  ghost predicate IsNext(word: seq<Elt>, f: Poly, s: seq<Elt>, loc: nat, next: seq<Elt>)
    requires loc < |word| && loc < 255
  {
    var at := |word| - 1 - loc;
    next == word[at := Add(word[at], ErrorValue(f, s, loc))]
  }

  ghost predicate AreStages(words: seq<seq<Elt>>, len: nat, f: Poly, s: seq<Elt>, locs: seq<nat>) {
    && |words| == |locs| + 1
    && (forall r :: 0 <= r < |words| ==> |words[r]| == len)
    && (forall r :: 0 <= r < |locs| ==> locs[r] < len && locs[r] < 255 && IsNext(words[r], f, s, locs[r], words[r + 1]))
  }

  ghost function Stages(word: seq<Elt>, f: Poly, s: seq<Elt>, locs: seq<nat>): (words: seq<seq<Elt>>)
    requires AllBelow(locs, |word|) && AllBelow(locs, 255)
    ensures |words| == |locs| + 1
    ensures forall r :: 0 <= r <= |locs| ==> words[r] == CorrectedAtFirst(word, f, s, locs, r)
  {
    seq(|locs| + 1, r requires 0 <= r <= |locs| => CorrectedAtFirst(word, f, s, locs, r))
  }

  lemma StagesFollow(word: seq<Elt>, f: Poly, s: seq<Elt>, locs: seq<nat>)
    requires AllBelow(locs, |word|) && AllBelow(locs, 255)
    ensures var words := Stages(word, f, s, locs);
      AreStages(words, |word|, f, s, locs) && words[0] == word && words[|locs|] == Corrected(word, f, s, locs)
  {
    var words := Stages(word, f, s, locs);
    forall r | 0 <= r < |locs|
      ensures IsNext(words[r], f, s, locs[r], words[r + 1])
    {
      assert words[r + 1] == CorrectedAtFirst(word, f, s, locs, r + 1);
    }
  }
}
