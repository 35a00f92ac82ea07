/** Doubling in GF(2^128) as bdk/sec/se.c does it, on bytes and on words. */
module Gf128 {
  import opened Bits

  /** A cipher block. */
  type Block = b: seq<u8> | |b| == 16 witness [0, 0, 0, 0, 0, 0, 0, 0, 0, 0, 0, 0, 0, 0, 0, 0]

  function Pow256(n: nat): (r: nat)
    ensures r > 0
  {
    if n == 0 then 1 else 256 * Pow256(n - 1)
  }

  /** The number that `b` spells with the least significant byte first. */
  function LeVal(b: seq<u8>): nat {
    if b == [] then 0 else b[0] + 256 * LeVal(b[1..])
  }

  function Reverse(b: seq<u8>): (r: seq<u8>)
    ensures |r| == |b|
  {
    seq(|b|, i requires 0 <= i < |b| => b[|b| - 1 - i])
  }

  /** ... with the most significant byte first. */
  function BeVal(b: seq<u8>): nat {
    LeVal(Reverse(b))
  }

  /** The `n` low bytes of `v`, least significant first. */
  function LeBytes(v: nat, n: nat): (r: seq<u8>)
    ensures |r| == n
  {
    if n == 0 then [] else [v % 256] + LeBytes(v / 256, n - 1)
  }

  // ----- the field

  /** Polynomials over GF(2) as numbers: bit k is the coefficient of x^k. Multiplication
      by x, reduced by x^128 + x^7 + x^2 + x + 1. */
  function MulX(v: nat): nat {
    if 2 * v >= Pow2(128) then Xor(2 * v, Pow2(128) + 0x87) else 2 * v
  }

  lemma {:induction false} XorJoin(q: nat, b: nat, p: nat, c: nat, n: nat)
    requires b < Pow2(n) && c < Pow2(n)
    ensures Xor(q * Pow2(n) + b, p * Pow2(n) + c) == Xor(q, p) * Pow2(n) + Xor(b, c)
    decreases n
  {
    hide Xor;
    if n == 0 {
      XorUnit(0);
      assert q * Pow2(0) == q && p * Pow2(0) == p && Xor(q, p) * Pow2(0) == Xor(q, p);
    } else {
      XorJoin(q, b / 2, p, c / 2, n - 1);
      var x, y, z := q * Pow2(n - 1), p * Pow2(n - 1), Xor(q, p) * Pow2(n - 1);
      assert q * Pow2(n) == 2 * x && p * Pow2(n) == 2 * y && Xor(q, p) * Pow2(n) == 2 * z;
      XorTwice(x, b, y, c);
    }
  }

  lemma XorTwice(x: nat, b: nat, y: nat, c: nat)
    ensures Xor(2 * x + b, 2 * y + c) == 2 * Xor(x + b / 2, y + c / 2) + Xor(b, c) - 2 * Xor(b / 2, c / 2)
  {
    assert (2 * x + b) / 2 == x + b / 2 && (2 * y + c) / 2 == y + c / 2;
    XorHalf(2 * x + b, 2 * y + c);
    XorHalf(b, c);
  }

  /** Multiplication by x, with the carry out of the top handled by the constant 0x87. */
  lemma MulXByCarry(v: nat, t: nat, carry: nat)
    requires v < Pow2(128) && t < Pow2(128) && carry <= 1 && 2 * v == carry * Pow2(128) + t
    ensures MulX(v) == (if carry == 1 then Xor(t, 0x87) else t) && MulX(v) < Pow2(128)
  {
    Pow2Values();
    Pow2Mono(8, 128);
    if carry == 1 {
      XorJoin(1, t, 1, 0x87, 128);
      XorSelf(1);
      XorBound(t, 0x87, 128);
    }
  }

  /** The coefficients of the product. */
  lemma MulXCoefficients(v: nat, k: nat)
    requires v < Pow2(128) && k < 128
    ensures Bit(MulX(v), k) == ((k > 0 && Bit(v, k - 1)) != (Bit(v, 127) && k in {0, 1, 2, 7}))
  {
    Bit87(k);
    TopCoefficient(v);
    BitDouble(v, k);
    if 2 * v >= Pow2(128) {
      BitXor(2 * v, Pow2(128) + 0x87, k);
      PolynomialBit(k);
    }
  }

  lemma TopCoefficient(v: nat)
    requires v < Pow2(128)
    ensures Bit(v, 127) <==> 2 * v >= Pow2(128)
  {
    BitTop(v, 127);
  }

  lemma BitDouble(v: nat, k: nat)
    ensures Bit(2 * v, k) == (k > 0 && Bit(v, k - 1))
  {
    assert 2 * v / 2 == v;
  }

  lemma PolynomialBit(k: nat)
    requires k < 128
    ensures Bit(Pow2(128) + 0x87, k) == Bit(0x87, k)
  {
    hide Bit, Xor;
    assert Pow2(8) == 0x100 by { Pow2Values(); }
    Pow2Mono(8, 128);
    XorAddHigh(0x87, 128);
    BitXor(Pow2(128), 0x87, k);
    BitPow2(128, k);
  }

  lemma XorAddHigh(c: nat, n: nat)
    requires c < Pow2(n)
    ensures Xor(Pow2(n), c) == Pow2(n) + c
  {
    hide Xor;
    XorJoin(1, 0, 0, c, n);
    XorUnit(1);
    XorUnit(c);
  }

  lemma Bit87(k: nat)
    ensures Bit(0x87, k) <==> k in {0, 1, 2, 7}
  {
    assert Pow2(8) == 0x100 by { Pow2Values(); }
    if k >= 8 {
      BitHigh(0x87, 8, k);
    } else {
      assert Bit(0x87, 0) && Bit(0x87, 1) && Bit(0x87, 2) && !Bit(0x87, 3);
      assert !Bit(0x87, 4) && !Bit(0x87, 5) && !Bit(0x87, 6) && Bit(0x87, 7);
    }
  }

  // ----- bytes and numbers

  lemma LeValBound(b: seq<u8>)
    ensures LeVal(b) < Pow256(|b|)
  {
  }

  lemma {:induction false} BytesRoundTrip(v: nat, n: nat)
    requires v < Pow256(n)
    ensures LeVal(LeBytes(v, n)) == v
  {
    if n > 0 { BytesRoundTrip(v / 256, n - 1); }
  }

  lemma {:induction false} ValRoundTrip(b: seq<u8>)
    ensures LeBytes(LeVal(b), |b|) == b
  {
    if b != [] {
      ValRoundTrip(b[1..]);
      var v := LeVal(b);
      assert v % 256 == b[0] && v / 256 == LeVal(b[1..]);
      assert b == [b[0]] + b[1..];
    }
  }

  lemma {:induction false} LeValAppend(a: seq<u8>, b: seq<u8>)
    ensures LeVal(a + b) == LeVal(a) + Pow256(|a|) * LeVal(b)
  {
    hide Pow256;
    Pow256Step(|a|);
    if a == [] {
      assert a + b == b;
    } else {
      assert (a + b)[1..] == a[1..] + b && (a + b)[0] == a[0];
      LeValAppend(a[1..], b);
      Product256(Pow256(|a| - 1), LeVal(b));
    }
  }

  lemma Pow256Step(n: nat)
    ensures Pow256(0) == 1 && (n > 0 ==> Pow256(n) == 256 * Pow256(n - 1))
  {
  }

  lemma Product256(p: nat, v: nat)
    ensures 256 * (p * v) == (256 * p) * v
  {
  }

  lemma {:induction false} Pow256Is(n: nat)
    ensures Pow256(n) == Pow2(8 * n)
  {
    if n > 0 {
      Pow256Is(n - 1);
      Pow2Add(8, 8 * (n - 1));
      assert Pow2(8) == 256;
    }
  }

  lemma ReverseTwice(b: seq<u8>)
    ensures Reverse(Reverse(b)) == b
  {
  }

  // ----- doubling a block

  /** Doubling with the least significant byte first (`_gf256_mul_x_le`). */
  function DoubleLe(b: Block): Block {
    LeBytes(MulX(LeVal(b)), 16)
  }

  /** Doubling with the most significant byte first (`_gf256_mul_x`). */
  function DoubleBe(b: Block): Block {
    Reverse(LeBytes(MulX(BeVal(b)), 16))
  }

  lemma DoubleLeIsMulX(b: Block)
    ensures LeVal(DoubleLe(b)) == MulX(LeVal(b))
  {
    hide LeVal, MulX, Xor, Pow2, Pow256;
    LeValBound(b);
    Pow256Is(16);
    Halves();
    var v := LeVal(b);
    MulXByCarry(v, if 2 * v >= Pow2(128) then 2 * v - Pow2(128) else 2 * v, if 2 * v >= Pow2(128) then 1 else 0);
    BytesRoundTrip(MulX(v), 16);
  }

  lemma Halves()
    ensures Pow2(128) == 2 * Pow2(127)
  {
  }

  lemma DoubleBeIsMulX(b: Block)
    ensures BeVal(DoubleBe(b)) == MulX(BeVal(b))
  {
    DoubleLeIsMulX(Reverse(b));
    ReverseTwice(LeBytes(MulX(BeVal(b)), 16));
  }

  /** The two variants are the same up to the order of bytes. */
  lemma DoublesConjugate(b: Block)
    ensures DoubleBe(b) == Reverse(DoubleLe(Reverse(b)))
  {
  }

  /** `v` multiplied `n` times by x. */
  function MulXTimes(v: nat, n: nat): nat {
    if n == 0 then v else MulX(MulXTimes(v, n - 1))
  }

  // ----- blocks as numbers

  /** The block that spells `v`, least or most significant byte first. */
  function LeBlock(v: nat): Block {
    LeBytes(v, 16)
  }

  function BeBlock(v: nat): Block {
    Reverse(LeBytes(v, 16))
  }

  lemma LeBlockVal(b: Block)
    ensures LeBlock(LeVal(b)) == b
  {
    ValRoundTrip(b);
  }

  lemma BeBlockVal(b: Block)
    ensures BeBlock(BeVal(b)) == b
  {
    ValRoundTrip(Reverse(b));
    ReverseTwice(b);
  }

  lemma BlockNumbers(v: nat)
    requires v < Pow256(16)
    ensures LeVal(LeBlock(v)) == v && BeVal(BeBlock(v)) == v
  {
    BytesRoundTrip(v, 16);
    ReverseTwice(LeBytes(v, 16));
  }

  /** The first byte weighs least in one order and most in the other. */
  lemma FirstByte(b: u8, rest: seq<u8>)
    ensures LeVal([b] + rest) == b + 256 * LeVal(rest)
    ensures BeVal([b] + rest) == BeVal(rest) + Pow256(|rest|) * b
  {
    hide Pow256, Reverse;
    assert ([b] + rest)[1..] == rest;
    ReverseFirst(b, rest);
    AppendByte(Reverse(rest), b, Pow256(|rest|));
  }

  lemma ReverseFirst(b: u8, rest: seq<u8>)
    ensures Reverse([b] + rest) == Reverse(rest) + [b]
  {
  }

  /** The exclusive or of bytes is that of numbers. */
  lemma {:induction false} LeValXor(a: seq<u8>, b: seq<u8>, c: seq<u8>)
    requires |a| == |b| == |c| && forall i | 0 <= i < |c| :: c[i] == Xor(a[i], b[i])
    ensures LeVal(c) == Xor(LeVal(a), LeVal(b))
  {
    hide Xor;
    if a == [] {
      XorUnit(0);
    } else {
      LeValXor(a[1..], b[1..], c[1..]);
      assert Pow2(8) == 256 by { Pow2Values(); }
      XorJoin(LeVal(a[1..]), a[0], LeVal(b[1..]), b[0], 8);
    }
  }

  // ----- the loops

  /** One step of the shift with carry: `d` is the digit `b`, of weight `p` and base
      `2 * h`, shifted by one. */
  lemma ShiftArithmetic(x: nat, y: nat, p: nat, h: nat, b: nat, carry: nat, d: nat)
    requires h > 0 && b < 2 * h && carry <= 1 && y + carry * p == 2 * x
    requires d == (if b >= h then 2 * b - 2 * h else 2 * b) + carry
    ensures y + p * d + (if b >= h then p * (2 * h) else 0) == 2 * (x + p * b)
  {
    var k := if b >= h then 2 * h else 0;
    ThreeProducts(p, 2 * b, k, carry);
    TwiceProduct(p, b);
  }

  lemma ThreeProducts(p: int, a: int, b: int, c: int)
    ensures p * (a - b + c) == p * a - p * b + c * p
  {
  }

  lemma TwiceProduct(p: nat, b: nat)
    ensures p * (2 * b) == 2 * (p * b)
  {
  }

  /** The bytes `r` have been shifted into `s`, with a carry left over. */
  ghost predicate Shifted(r: seq<u8>, s: seq<u8>, carry: nat) {
    |r| == |s| && carry <= 1 && LeVal(s) + carry * Pow256(|r|) == 2 * LeVal(r)
  }

  lemma OneByte(b: u8)
    ensures LeVal([b]) == b
  {
  }

  /** One byte of the shift, behind the bytes `r` already shifted into `s`. */
  lemma ShiftByte(r: seq<u8>, s: seq<u8>, b: u8, carry: nat, d: u8)
    requires Shifted(r, s, carry) && d == 2 * b % 256 + carry
    ensures Shifted(r + [b], s + [d], b / 128)
  {
    hide LeVal;
    var p := Pow256(|r|);
    AppendByte(r, b, p);
    AppendByte(s, d, p);
    ShiftArithmetic(LeVal(r), LeVal(s), p, 128, b, carry, d);
    assert Pow256(|r| + 1) == 256 * p;
    hide Pow256;
    CarryWeight(b, p);
  }

  lemma AppendByte(r: seq<u8>, b: u8, p: nat)
    requires p == Pow256(|r|)
    ensures LeVal(r + [b]) == LeVal(r) + p * b
  {
    LeValAppend(r, [b]);
    OneByte(b);
  }

  lemma CarryWeight(b: u8, p: nat)
    ensures b / 128 * (256 * p) == if b >= 128 then p * (2 * 128) else 0
  {
  }

  /** A carry out of 128 bits comes back as 0x87. */
  lemma ShiftDone(r: Block, s: Block, carry: nat)
    requires Shifted(r, s, carry)
    ensures MulX(LeVal(r)) == if carry == 1 then Xor(LeVal(s), 0x87) else LeVal(s)
  {
    hide LeVal, MulX, Xor, Pow2, Pow256;
    LeValBound(r);
    LeValBound(s);
    Pow256Is(16);
    MulXByCarry(LeVal(r), LeVal(s), carry);
  }

  /** An exclusive or of the low byte is one of the number. */
  lemma XorLowByte(b: seq<u8>, c: u8, d: u8)
    requires b != [] && d == Xor(b[0], c)
    ensures LeVal(b[0 := d]) == Xor(LeVal(b), c)
  {
    hide Xor;
    assert Pow2(8) == 256 by { Pow2Values(); }
    assert b[0 := d][1..] == b[1..];
    XorJoin(LeVal(b[1..]), b[0], 0, c, 8);
    XorUnit(LeVal(b[1..]));
  }
}
