/** The extended Hamming code over the words of one bootrom patch block
    (`_parity32_even` and `_patch_hash_multi` of bdk/soc/fuse.c), described by the
    columns of its parity-check matrix. */
module PatchCode {
  import opened Bits

  const MAX_WORDS := 512

  /** Column of the parity-check matrix for bit `p % 32` of word `p / 32`. Bits 0..14
      of word 0 are check bits, bit 15 is the overall parity bit, and bits 20..31 of
      word 0 belong to another code. */
  function Column(p: nat): nat {
    if p < 15 then Pow2(p) else if p == 15 || 20 <= p < 32 then 0 else 0x4000 + p
  }

  /** Exclusive or of the columns of the set bits below bit `n` of word `i`. */
  function SynBits(w: nat, i: nat, n: nat): nat {
    if n == 0 then 0
    else Xor(SynBits(w, i, n - 1), if Bit(w, n - 1) then Column(32 * i + n - 1) else 0)
  }

  /** Syndrome of the first `n` words. */
  function Syndrome(ws: seq<u32>, n: nat): nat
    requires n <= |ws|
  {
    if n == 0 then 0 else Xor(Syndrome(ws, n - 1), SynBits(ws[n - 1], n - 1, 32))
  }

  /** Parity of all bits of the first `n` words. */
  predicate OddParity(ws: seq<u32>, n: nat)
    requires n <= |ws|
  {
    if n == 0 then false else OddParity(ws, n - 1) != Parity(ws[n - 1])
  }

  predicate Codeword(ws: seq<u32>) {
    Syndrome(ws, |ws|) == 0 && !OddParity(ws, |ws|)
  }

  function Flip(ws: seq<u32>, p: nat): (r: seq<u32>)
    requires p < 32 * |ws|
    ensures |r| == |ws|
  {
    Pow2Mono(p % 32, 32);
    Pow2Values();
    ws[p / 32 := Xor32(ws[p / 32], Pow2(p % 32))]
  }

  function Low20(w: u32): u32 {
    w % 0x10_0000
  }

  /** `ws` with the upper bits of word 0, which belong to another code, cleared. */
  function Payload(ws: seq<u32>): seq<u32>
    requires |ws| > 0
  {
    ws[0 := Low20(ws[0])]
  }

  datatype Decoded = Decoded(ret: int, words: seq<u32>)

  predicate IsCheckColumn(s: nat) {
    exists k | 0 <= k < 15 :: s == Pow2(k)
  }

  /** Syndrome decoding, the specification of `_patch_hash_multi`. */
  function Decode(ws: seq<u32>): (d: Decoded)
    requires 0 < |ws| <= MAX_WORDS
    ensures |d.words| == |ws|
  {
    var s, odd, out := Syndrome(ws, |ws|), OddParity(ws, |ws|), Payload(ws);
    SyndromeBound(ws, |ws|);
    if s == 0 then if odd then Decoded(1, Flip(out, 15)) else Decoded(0, out)
    else if !odd then Decoded(3, out)
    else if 0x4010 <= s < 0x4000 + 32 * |ws| then Decoded(1, Flip(out, s - 0x4000))
    else if IsCheckColumn(s) then Decoded(1, out[0 := Xor32(out[0], s)])
    else Decoded(2, out)
  }

  // ----- bounds

  lemma ColumnBound(p: nat)
    requires p < 0x4000
    ensures Column(p) < 0x8000
  {
    Pow2Values();
    if p < 15 { Pow2Mono(p, 15); }
  }

  lemma {:induction false} SynBitsBound(w: nat, i: nat, n: nat)
    requires n <= 32 && i < MAX_WORDS
    ensures SynBits(w, i, n) < 0x8000
  {
    Pow2Values();
    if n > 0 {
      SynBitsBound(w, i, n - 1);
      ColumnBound(32 * i + n - 1);
      XorBound(SynBits(w, i, n - 1), if Bit(w, n - 1) then Column(32 * i + n - 1) else 0, 15);
    }
  }

  lemma {:induction false} SyndromeBound(ws: seq<u32>, n: nat)
    requires n <= |ws| <= MAX_WORDS
    ensures Syndrome(ws, n) < 0x8000
  {
    Pow2Values();
    if n > 0 {
      SyndromeBound(ws, n - 1);
      SynBitsBound(ws[n - 1], n - 1, 32);
      XorBound(Syndrome(ws, n - 1), SynBits(ws[n - 1], n - 1, 32), 15);
    }
  }

  // ----- effect of flipping bits

  lemma XorSwap(a: nat, b: nat, c: nat)
    ensures Xor(Xor(a, b), c) == Xor(Xor(a, c), b)
  {
    XorAssoc(a, b, c);
    XorAssoc(a, c, b);
    XorComm(b, c);
  }

  lemma {:induction false} SynBitsFlip(w: nat, k: nat, i: nat, n: nat)
    ensures SynBits(Xor(w, Pow2(k)), i, n)
         == Xor(SynBits(w, i, n), if k < n then Column(32 * i + k) else 0)
  {
    hide Xor, Pow2, Bit, Column;
    if n == 0 {
      XorUnit(0);
    } else {
      SynBitsFlip(w, k, i, n - 1);
      BitXor(w, Pow2(k), n - 1);
      BitPow2(k, n - 1);
      var a, c := SynBits(w, i, n - 1), Column(32 * i + n - 1);
      if k == n - 1 {
        XorUnit(a);
        XorCancel(a, c);
        XorUnit(Xor(a, c));
      } else {
        XorSwap(a, if k < n then Column(32 * i + k) else 0, if Bit(w, n - 1) then c else 0);
      }
    }
  }

  lemma {:induction false} SyndromeFlip(ws: seq<u32>, p: nat, n: nat)
    requires p < 32 * |ws| && n <= |ws|
    ensures Syndrome(Flip(ws, p), n) == Xor(Syndrome(ws, n), if p < 32 * n then Column(p) else 0)
  {
    hide Xor, SynBits, Column;
    if n == 0 {
      XorUnit(0);
    } else {
      SyndromeFlip(ws, p, n - 1);
      var a, b := Syndrome(ws, n - 1), SynBits(ws[n - 1], n - 1, 32);
      if p / 32 == n - 1 {
        SynBitsFlip(ws[n - 1], p % 32, n - 1, 32);
        XorUnit(a);
        XorAssoc(a, b, Column(p));
      } else {
        XorSwap(a, if p < 32 * n then Column(p) else 0, b);
      }
    }
  }

  lemma {:induction false} ParityFlip(ws: seq<u32>, p: nat, n: nat)
    requires p < 32 * |ws| && n <= |ws|
    ensures OddParity(Flip(ws, p), n) == (OddParity(ws, n) != (p < 32 * n))
  {
    if n > 0 {
      ParityFlip(ws, p, n - 1);
      if p / 32 == n - 1 {
        ParityXor(ws[n - 1], Pow2(p % 32));
        ParityPow2(p % 32);
      }
    }
  }

  /** Flipping bit `p` adds its column to the syndrome and inverts the parity. */
  lemma FlipEffect(ws: seq<u32>, p: nat)
    requires p < 32 * |ws|
    ensures Syndrome(Flip(ws, p), |ws|) == Xor(Syndrome(ws, |ws|), Column(p))
    ensures OddParity(Flip(ws, p), |ws|) == !OddParity(ws, |ws|)
  {
    SyndromeFlip(ws, p, |ws|);
    ParityFlip(ws, p, |ws|);
  }

  // ----- distinctness of columns

  predicate Excluded(p: nat) {
    20 <= p < 32
  }

  predicate ZeroColumn(p: nat) {
    p == 15 || Excluded(p)
  }

  lemma Pow2Distinct(j: nat, k: nat)
    requires j != k
    ensures Pow2(j) != Pow2(k)
  {
    if j < k { Pow2Mono(j, k); } else { Pow2Mono(k, j); }
  }

  lemma CheckColumnSmall(k: nat)
    requires k < 15
    ensures Pow2(k) <= 0x4000
  {
    assert Pow2(14) == 0x4000 by { Pow2Values(); }
    if k < 14 { Pow2Mono(k, 14); }
  }

  /** All columns are distinct, but for the zero columns. */
  lemma ColumnsDistinct(p: nat, q: nat)
    requires p != q
    ensures Column(p) == Column(q) <==> ZeroColumn(p) && ZeroColumn(q)
  {
    if p < 15 { CheckColumnSmall(p); }
    if q < 15 { CheckColumnSmall(q); }
    if p < 15 && q < 15 { Pow2Distinct(p, q); }
  }

  /** Check bit k covers the data bits at the positions whose bit k is set, check bit 14 covers
      all of them. */
  lemma ColumnBits(p: nat, k: nat)
    requires p < 32 * MAX_WORDS && k < 15
    ensures p < 15 ==> (Bit(Column(p), k) <==> k == p)
    ensures 16 <= p < 20 || 32 <= p ==> (Bit(Column(p), k) <==> k == 14 || Bit(p, k))
  {
    hide Bit;
    if p < 15 {
      BitPow2(p, k);
    } else if 16 <= p < 20 || 32 <= p {
      assert Pow2(14) == 0x4000 by { Pow2Values(); }
      XorAdd(1, p, 14);
      BitXor(Pow2(14), p, k);
      BitPow2(14, k);
      BitHigh(p, 14, 14);
    }
  }

  /** Even parity with a nonzero syndrome returns 3; odd parity that no single error nor a
      miscorrected syndrome explains returns 2. */
  lemma ReturnCodes(ws: seq<u32>)
    requires 0 < |ws| <= MAX_WORDS
    ensures Decode(ws).ret in {0, 1, 2, 3}
    ensures Decode(ws).ret == 3 <==> !OddParity(ws, |ws|) && !Codeword(ws)
    ensures Decode(ws).ret == 2 <==> OddParity(ws, |ws|) && !WithinOne(ws) && !Miscorrected(ws)
  {
    CorrectedExactly(ws);
  }

  lemma ColumnZero(p: nat)
    ensures Column(p) == 0 <==> ZeroColumn(p)
  {
  }

  lemma FlipTwice(ws: seq<u32>, p: nat)
    requires p < 32 * |ws|
    ensures Flip(Flip(ws, p), p) == ws
  {
    XorCancel(ws[p / 32], Pow2(p % 32));
  }

  lemma Low20Xor(w: u32, k: nat)
    requires k < 32
    ensures Xor(w, Pow2(k)) < 0x1_0000_0000
    ensures Low20(Xor(w, Pow2(k))) == if k < 20 then Xor(Low20(w), Pow2(k)) else Low20(w)
  {
    Pow2Values();
    Pow2Mono(k, 32);
    XorBound(w, Pow2(k), 32);
    var x := Xor(w, Pow2(k));
    var y := if k < 20 then Xor(Low20(w), Pow2(k)) else Low20(w);
    if k < 20 {
      Pow2Mono(k, 20);
      XorBound(Low20(w), Pow2(k), 20);
    }
    forall j | 0 <= j < 20 ensures Bit(x % Pow2(20), j) == Bit(y, j) {
      BitMod(x, 20, j);
      BitMod(w, 20, j);
      BitXor(w, Pow2(k), j);
      BitXor(w % Pow2(20), Pow2(k), j);
      BitPow2(k, j);
    }
    BitsDetermine(x % Pow2(20), y, 20);
  }

  /** A flip commutes with dropping the upper bits of word 0, unless it is among them. */
  lemma PayloadFlip(ws: seq<u32>, p: nat)
    requires p < 32 * |ws|
    ensures Payload(Flip(ws, p)) == if Excluded(p) then Payload(ws) else Flip(Payload(ws), p)
  {
    if p < 32 { Low20Xor(ws[0], p); }
  }

  // ----- main results

  /** A codeword is accepted unchanged. */
  lemma CodewordAccepted(ws: seq<u32>)
    requires 0 < |ws| <= MAX_WORDS
    ensures Decode(ws).ret == 0 <==> Codeword(ws)
    ensures Codeword(ws) ==> Decode(ws).words == Payload(ws)
  {
  }

  lemma XorFromZero(s: nat, c: nat)
    requires s == 0
    ensures Xor(s, c) == c
  {
    XorUnit(c);
  }

  lemma CheckBitRestored(out: seq<u32>, p: nat)
    requires 0 < |out| <= MAX_WORDS && p < 15
    ensures IsCheckColumn(Column(p)) && 0 < Column(p) < 0x4010
    ensures Flip(out, p) == out[0 := Xor32(out[0], Column(p))]
  {
    CheckColumnSmall(p);
  }

  /** Every single error is corrected; inside the upper bits of word 0 it costs only
      the parity bit. */
  lemma SingleErrorCorrected(ws: seq<u32>, p: nat)
    requires 0 < |ws| <= MAX_WORDS && Codeword(ws) && p < 32 * |ws|
    ensures Decode(Flip(ws, p)).ret == 1
    ensures Decode(Flip(ws, p)).words == if Excluded(p) then Flip(Payload(ws), 15) else Payload(ws)
  {
    FlipEffect(ws, p);
    XorFromZero(Syndrome(ws, |ws|), Column(p));
    PayloadFlip(ws, p);
    FlipTwice(Payload(ws), p);
    ColumnZero(p);
    if p < 15 { CheckBitRestored(Payload(Flip(ws, p)), p); }
  }

  /** Two errors are reported, unless neither of them is in a bit the syndrome covers. */
  lemma DoubleErrorDetected(ws: seq<u32>, p: nat, q: nat)
    requires 0 < |ws| <= MAX_WORDS && Codeword(ws) && p < q < 32 * |ws|
    ensures Decode(Flip(Flip(ws, p), q)).ret == if ZeroColumn(p) && ZeroColumn(q) then 0 else 3
  {
    FlipEffect(ws, p);
    FlipEffect(Flip(ws, p), q);
    XorFromZero(Syndrome(ws, |ws|), Column(p));
    ColumnsDistinct(p, q);
    XorZero(Column(p), Column(q));
  }

  /** The syndromes the decoder takes for an error in the upper bits of word 0, although
      no single error produces them. */
  predicate Miscorrected(ws: seq<u32>) {
    OddParity(ws, |ws|) && 0x4014 <= Syndrome(ws, |ws|) < 0x4020
  }

  predicate WithinOne(ws: seq<u32>) {
    exists p | 0 <= p < 32 * |ws| :: Codeword(Flip(ws, p))
  }

  lemma WithinOneColumn(ws: seq<u32>, p: nat)
    requires p < 32 * |ws|
    ensures Codeword(Flip(ws, p)) <==> OddParity(ws, |ws|) && Syndrome(ws, |ws|) == Column(p)
  {
    FlipEffect(ws, p);
    XorZero(Syndrome(ws, |ws|), Column(p));
  }

  /** "Corrected" means one bit away from a codeword, except for a miscorrected syndrome. */
  lemma CorrectedExactly(ws: seq<u32>)
    requires 0 < |ws| <= MAX_WORDS
    ensures Decode(ws).ret == 1 <==> WithinOne(ws) || Miscorrected(ws)
    ensures !(WithinOne(ws) && Miscorrected(ws))
  {
    var s := Syndrome(ws, |ws|);
    SyndromeBound(ws, |ws|);
    if WithinOne(ws) {
      var p :| 0 <= p < 32 * |ws| && Codeword(Flip(ws, p));
      WithinOneColumn(ws, p);
      if p < 15 { CheckBitRestored(Payload(ws), p); }
    }
    if Decode(ws).ret == 1 && !Miscorrected(ws) {
      var p := DecodedPosition(ws);
      WithinOneColumn(ws, p);
    }
  }

  lemma DecodedPosition(ws: seq<u32>) returns (p: nat)
    requires 0 < |ws| <= MAX_WORDS && Decode(ws).ret == 1 && !Miscorrected(ws)
    ensures p < 32 * |ws| && Syndrome(ws, |ws|) == Column(p)
  {
    var s := Syndrome(ws, |ws|);
    if s == 0 {
      p := 15;
    } else if 0x4010 <= s < 0x4000 + 32 * |ws| {
      p := s - 0x4000;
    } else {
      p :| 0 <= p < 15 && s == Pow2(p);
    }
  }

  /** Three flipped check bits of an all-zero block are such a miscorrection: the decoder
      reports success although no codeword is one bit away. */
  lemma MiscorrectionExample()
    ensures Codeword([0])
    ensures var ws := Flip(Flip(Flip([0], 14), 4), 2);
            Decode(ws).ret == 1 && !WithinOne(ws)
  {
    var z: seq<u32> := [0];
    ZeroBlock(z);
    FlipEffect(z, 14);
    FlipEffect(Flip(z, 14), 4);
    FlipEffect(Flip(Flip(z, 14), 4), 2);
    ExampleSyndrome();
    CorrectedExactly(Flip(Flip(Flip(z, 14), 4), 2));
  }

  lemma ZeroBlock(z: seq<u32>)
    requires z == [0]
    ensures Syndrome(z, |z|) == 0 && !OddParity(z, |z|)
  {
    SynBitsZero(0, 32);
    XorUnit(0);
    assert Syndrome(z, 0) == 0 && !OddParity(z, 0);
  }

  lemma ExampleSyndrome()
    ensures Xor(Xor(Xor(0, Column(14)), Column(4)), Column(2)) == 0x4014
  {
    hide Xor;
    assert Pow2(14) == 0x4000;
    assert Pow2(2) == 4 && Pow2(4) == 0x10;
    XorUnit(Pow2(14));
    assert Xor(0x4000, 0x10) == 0x4010 by { XorAdd(0x200, 0x10, 5); assert Pow2(5) == 32; }
    assert Xor(0x4010, 4) == 0x4014 by { XorAdd(0x802, 4, 3); assert Pow2(3) == 8; }
  }

  lemma {:induction false} SynBitsZero(i: nat, n: nat)
    ensures SynBits(0, i, n) == 0
  {
    if n > 0 {
      SynBitsZero(i, n - 1);
      BitZero(n - 1);
      XorUnit(0);
    }
  }

  /** Exclusive or of disjoint bits is addition. */
  lemma {:induction false} XorAdd(h: nat, b: nat, n: nat)
    requires b < Pow2(n)
    ensures Xor(h * Pow2(n), b) == h * Pow2(n) + b
  {
    if n == 0 {
      XorUnit(h);
    } else {
      assert h * Pow2(n) == 2 * (h * Pow2(n - 1));
      XorAdd(h, b / 2, n - 1);
      XorHalf(h * Pow2(n), b);
    }
  }
}
