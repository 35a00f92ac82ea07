/** `_gf256_mul_x` and `_gf256_mul_x_le` of bdk/sec/se.c, in place, proved to double. */
module GfMul {
  import opened Bits
  import opened Gf128

  method MulXBe(block: array<u8>)
    requires block.Length == 16
    modifies block
    ensures block[..] == DoubleBe(old(block[..])) == Reverse(DoubleLe(Reverse(old(block[..]))))
  {
    hide Shifted, DoubleBe, DoubleLe;
    ghost var x0 := block[..];
    DoublesConjugate(x0);
    var carry := 0;
    var i := 0xF;
    BeStart(x0);
    while i >= 0
      invariant -1 <= i <= 0xF && 0 <= carry <= 1
      invariant block[..i + 1] == x0[..i + 1]
      invariant Shifted(Reverse(x0)[..15 - i], Reverse(block[..])[..15 - i], carry)
    {
      ghost var x := block[..];
      var b: int := block[i];
      block[i] := 2 * b % 256 + carry;
      assert x[i] == x[..i + 1][i] == x0[..i + 1][i];
      BeStep(x0, x, i, carry, block[i]);
      assert block[..] == x[i := block[i]];
      carry := b / 128;
      i := i - 1;
    }
    ghost var x := block[..];
    XorByte(block[0xF], 0x87);
    if carry != 0 {
      block[0xF] := Xor(block[0xF], 0x87);
    }
    BeDone(x0, x, carry, block[..]);
  }

  lemma BeStart(x0: Block)
    ensures Shifted(Reverse(x0)[..0], Reverse(x0)[..0], 0)
  {
  }

  lemma BeStep(x0: Block, x: Block, i: nat, carry: nat, d: u8)
    requires i < 16 && x[i] == x0[i] && d == 2 * x[i] % 256 + carry
    requires Shifted(Reverse(x0)[..15 - i], Reverse(x)[..15 - i], carry)
    ensures Shifted(Reverse(x0)[..16 - i], Reverse(x[i := d])[..16 - i], x[i] / 128)
  {
    var r, s := Reverse(x0)[..15 - i], Reverse(x)[..15 - i];
    assert Reverse(x0)[..16 - i] == r + [x[i]];
    assert Reverse(x[i := d])[..16 - i] == s + [d];
    ShiftByte(r, s, x[i], carry, d);
  }

  lemma BeDone(x0: Block, x: Block, carry: nat, y: Block)
    requires Shifted(Reverse(x0)[..16], Reverse(x)[..16], carry)
    requires Xor(x[15], 0x87) < 0x100 && y == if carry == 0 then x else x[15 := Xor(x[15], 0x87)]
    ensures y == DoubleBe(x0)
  {
    var r, t := Reverse(x0), Reverse(x);
    assert r[..16] == r && t[..16] == t;
    ShiftDone(r, t, carry);
    if carry != 0 {
      XorLowByte(t, 0x87, y[15]);
      assert Reverse(y) == t[0 := y[15]];
    }
    ReverseTwice(y);
    ValRoundTrip(Reverse(y));
  }

  lemma XorByte(a: u8, b: u8)
    ensures Xor(a, b) < 0x100
  {
    Pow2Values();
    XorBound(a, b, 8);
  }

  /** Word `i` of the block, as a little-endian machine reads it. */
  function Word(b: seq<u8>, i: nat): (w: u32)
    requires 4 * i + 4 <= |b|
  {
    LeValBound(b[4 * i..4 * i + 4]);
    Pow256Is(4);
    Pow2Values();
    LeVal(b[4 * i..4 * i + 4])
  }

  method SetWord(block: array<u8>, i: nat, w: u32)
    requires 4 * i + 4 <= block.Length
    modifies block
    ensures block[..] == old(block[..4 * i]) + LeBytes(w, 4) + old(block[4 * i + 4..])
  {
    ghost var old_ := block[..];
    block[4 * i] := w % 256;
    block[4 * i + 1] := w / 256 % 256;
    block[4 * i + 2] := w / 0x1_0000 % 256;
    block[4 * i + 3] := w / 0x100_0000;
    FourBytes(w);
  }

  lemma FourBytes(w: u32)
    ensures LeBytes(w, 4) == [w % 256, w / 256 % 256, w / 0x1_0000 % 256, w / 0x100_0000]
  {
    var x, y, z := w / 256, w / 256 / 256, w / 256 / 256 / 256;
    assert y == w / 0x1_0000 && z == w / 0x100_0000;
    assert LeBytes(z, 1) == [z] + LeBytes(z / 256, 0);
    assert LeBytes(y, 2) == [y % 256] + LeBytes(z, 1);
    assert LeBytes(x, 3) == [x % 256] + LeBytes(y, 2);
  }

  /** One word of the shift, behind the bytes `r` already shifted into `s`. */
  lemma ShiftWord(r: seq<u8>, s: seq<u8>, w: seq<u8>, b: u32, carry: nat, d: u32)
    requires |w| == 4 && b == LeVal(w) && d == 2 * b % 0x1_0000_0000 + carry && Shifted(r, s, carry)
    ensures Shifted(r + w, s + LeBytes(d, 4), b / 0x8000_0000)
  {
    hide LeVal;
    var p := Pow256(|r|);
    AppendWord(r, w, b, p);
    AppendWord(s, LeBytes(d, 4), d, p);
    ShiftArithmetic(LeVal(r), LeVal(s), p, 0x8000_0000, b, carry, d);
    Weight4(|r|, b);
    hide Pow256;
  }

  lemma AppendWord(r: seq<u8>, w: seq<u8>, b: u32, p: nat)
    requires p == Pow256(|r|) && |w| == 4 && (b == LeVal(w) || w == LeBytes(b, 4))
    ensures LeVal(r + w) == LeVal(r) + p * b
  {
    LeValAppend(r, w);
    Pow256Is(4);
    Pow2Values();
    BytesRoundTrip(b, 4);
  }

  lemma Weight4(k: nat, b: u32)
    ensures b / 0x8000_0000 * Pow256(k + 4)
         == if b >= 0x8000_0000 then Pow256(k) * (2 * 0x8000_0000) else 0
  {
    assert Pow256(k + 4) == 0x1_0000_0000 * Pow256(k) by {
      assert Pow256(k + 1) == 256 * Pow256(k);
      assert Pow256(k + 2) == 256 * Pow256(k + 1);
      assert Pow256(k + 3) == 256 * Pow256(k + 2);
    }
  }

  /** An exclusive or of the low word is one of the number. */
  lemma XorLowWord(b: seq<u8>, c: nat, d: u32)
    requires |b| >= 4 && c < 0x1_0000_0000 && d == Xor(LeVal(b[..4]), c)
    ensures LeVal(LeBytes(d, 4) + b[4..]) == Xor(LeVal(b), c)
  {
    hide LeVal, Xor;
    Pow2Values();
    Pow256Is(4);
    var lo, hi := LeVal(b[..4]), LeVal(b[4..]);
    LeValBound(b[..4]);
    assert b == b[..4] + b[4..];
    LeValAppend(b[..4], b[4..]);
    LeValAppend(LeBytes(d, 4), b[4..]);
    BytesRoundTrip(d, 4);
    XorJoin(hi, lo, 0, c, 32);
    XorUnit(hi);
  }

  method MulXLe(block: array<u8>)
    requires block.Length == 16
    modifies block
    ensures block[..] == DoubleLe(old(block[..]))
  {
    hide Shifted, DoubleLe, LeVal, LeBytes, Word;
    ghost var x0 := block[..];
    var carry := 0;
    LeStart(x0);
    for i := 0 to 4
      invariant 0 <= carry <= 1
      invariant block[4 * i..] == x0[4 * i..]
      invariant Shifted(x0[..4 * i], block[..4 * i], carry)
    {
      ghost var x := block[..];
      var b: int := Word(block[..], i);
      LeWords(x0, x, i);
      SetWord(block, i, 2 * b % 0x1_0000_0000 + carry);
      LeStep(x0, x, i, b, carry, block[..]);
      carry := b / 0x8000_0000;
    }
    ghost var x := block[..];
    if carry != 0 {
      SetWord(block, 0, Xor32(Word(block[..], 0), 0x87));
    }
    LeDone(x0, x, carry, block[..]);
  }

  lemma LeStart(x0: Block)
    ensures Shifted(x0[..0], x0[..0], 0)
  {
  }

  lemma LeWords(x0: Block, x: Block, i: nat)
    requires i < 4 && x[4 * i..] == x0[4 * i..]
    ensures Word(x, i) == Word(x0, i)
  {
    assert x[4 * i..4 * i + 4] == x[4 * i..][..4];
    assert x0[4 * i..4 * i + 4] == x0[4 * i..][..4];
  }

  lemma LeStep(x0: Block, x: Block, i: nat, b: u32, carry: nat, y: Block)
    requires i < 4 && x[4 * i..] == x0[4 * i..] && b == Word(x0, i) && carry <= 1
    requires y == x[..4 * i] + LeBytes(2 * b % 0x1_0000_0000 + carry, 4) + x[4 * i + 4..]
    requires Shifted(x0[..4 * i], x[..4 * i], carry)
    ensures y[4 * i + 4..] == x0[4 * i + 4..]
    ensures Shifted(x0[..4 * i + 4], y[..4 * i + 4], b / 0x8000_0000)
  {
    hide Shifted, LeVal, LeBytes;
    ShiftWord(x0[..4 * i], x[..4 * i], x0[4 * i..4 * i + 4], b, carry, 2 * b % 0x1_0000_0000 + carry);
    assert x0[..4 * i + 4] == x0[..4 * i] + x0[4 * i..4 * i + 4];
    assert y[..4 * i + 4] == x[..4 * i] + LeBytes(2 * b % 0x1_0000_0000 + carry, 4);
    assert y[4 * i + 4..] == x[4 * i..][4..] == x0[4 * i..][4..];
  }

  lemma LeDone(x0: Block, x: Block, carry: nat, y: Block)
    requires Shifted(x0[..16], x[..16], carry)
    requires y == if carry == 0 then x else x[..0] + LeBytes(Xor32(Word(x, 0), 0x87), 4) + x[4..]
    ensures y == DoubleLe(x0)
  {
    hide LeVal, LeBytes;
    assert x0[..16] == x0 && x[..16] == x;
    ShiftDone(x0, x, carry);
    if carry != 0 {
      assert x[0..4] == x[..4];
      XorLowWord(x, 0x87, Xor32(Word(x, 0), 0x87));
      assert y == LeBytes(Xor32(Word(x, 0), 0x87), 4) + x[4..];
    }
    ValRoundTrip(y);
  }
}
