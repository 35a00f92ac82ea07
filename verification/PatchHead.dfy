/** The second code of a patch block (`_patch_hash_one` of bdk/soc/fuse.c): an extended
    Hamming code over bits 20..31 of word 0, which hold the size of the next block. */
module PatchHead {
  import opened Bits
  import PatchCode
  import PatchHash

  const HASH_VALS: seq<nat> := [1, 2, 4, 8, 0, 3, 5, 6, 7, 9, 10, 11]

  /** Exclusive or of the columns of the set bits among 20..20 + n - 1. */
  function Syn(w: nat, n: nat): nat
    requires n <= 12
  {
    if n == 0 then 0 else Xor(Syn(w, n - 1), if Bit(w, 20 + n - 1) then HASH_VALS[n - 1] else 0)
  }

  /** `w & 0xfff00000` */
  function Upper(w: u32): u32 {
    w / 0x10_0000 * 0x10_0000
  }

  predicate Codeword(w: u32) {
    Syn(w, 12) == 0 && !Parity(Upper(w))
  }

  function FlipBit(w: u32, k: nat): u32
    requires k < 32
  {
    Pow2Mono(k, 32);
    Pow2Values();
    Xor32(w, Pow2(k))
  }

  /** The first table index from `i` on that holds `s`, or 12. */
  function Find(s: nat, i: nat): (r: nat)
    requires i <= 12
    ensures i <= r <= 12
    ensures r < 12 ==> HASH_VALS[r] == s
    ensures forall j | i <= j < r :: HASH_VALS[j] != s
    decreases 12 - i
  {
    if i == 12 || HASH_VALS[i] == s then i else Find(s, i + 1)
  }

  datatype Decoded = Decoded(ret: int, word: u32)

  /** Syndrome decoding, the specification of `_patch_hash_one`. */
  function Decode(w: u32): Decoded {
    var s, odd := Syn(w, 12), Parity(Upper(w));
    if s == 0 then if odd then Decoded(1, FlipBit(w, 24)) else Decoded(0, w)
    else if !odd then Decoded(3, w)
    else if Find(s, 0) < 12 then Decoded(1, FlipBit(w, 20 + Find(s, 0)))
    else Decoded(2, w)
  }

  method PatchHashOne(word: u32) returns (ret: int, patched: u32)
    ensures Decode(word) == Decoded(ret, patched)
  {
    patched := word;
    var upper := Upper(word);
    var parityBit := PatchHash.FoldParity(upper);
    var hash := 0;
    for i := 0 to 12
      invariant hash == Syn(word, i)
    {
      XorUnit(hash);
      if Bit(word, 20 + i) {
        hash := Xor(hash, HASH_VALS[i]);
      }
    }
    if hash == 0 {
      if parityBit == 0 {
        return 0, patched;
      }
      patched := FlipBit(patched, 24);
      return 1, patched;
    }
    if parityBit == 0 {
      return 3, patched;
    }
    for i := 0 to |HASH_VALS|
      invariant Find(hash, 0) == Find(hash, i)
    {
      if HASH_VALS[i] == hash {
        patched := FlipBit(patched, 20 + i);
        return 1, patched;
      }
    }
    return 2, patched;
  }

  // ----- flips

  lemma {:induction false} SynFlip(w: u32, k: nat, n: nat)
    requires k < 32 && n <= 12
    ensures Syn(FlipBit(w, k), n) == Xor(Syn(w, n), if 20 <= k < 20 + n then HASH_VALS[k - 20] else 0)
  {
    if n == 0 {
      XorUnit(0);
    } else {
      SynFlip(w, k, n - 1);
      BitXor(w, Pow2(k), 20 + n - 1);
      BitPow2(k, 20 + n - 1);
      var a, c := Syn(w, n - 1), HASH_VALS[n - 1];
      if k == 20 + n - 1 {
        XorUnit(a);
        XorCancel(a, c);
        XorUnit(Xor(a, c));
      } else {
        PatchCode.XorSwap(a, if 20 <= k < 20 + n then HASH_VALS[k - 20] else 0, if Bit(w, 20 + n - 1) then c else 0);
      }
    }
  }

  lemma UpperFlip(w: u32, k: nat)
    requires k < 32
    ensures Parity(Upper(FlipBit(w, k))) == (Parity(Upper(w)) != (k >= 20))
  {
    var x := FlipBit(w, k);
    ParityXor(w, Pow2(k));
    ParityPow2(k);
    Pow2Values();
    ParityParts(w);
    ParityParts(x);
    PatchCode.Low20Xor(w, k);
    ParityXor(PatchCode.Low20(w), Pow2(k));
  }

  lemma ParityParts(w: u32)
    ensures Parity(w) == (Parity(Upper(w)) != Parity(PatchCode.Low20(w)))
  {
    Pow2Values();
    ParitySplit(w, 20, w % 0x10_0000, w / 0x10_0000);
    ParitySplit(Upper(w), 20, 0, w / 0x10_0000);
  }

  lemma FlipEffect(w: u32, k: nat)
    requires k < 32
    ensures Syn(FlipBit(w, k), 12) == if k < 20 then Syn(w, 12) else Xor(Syn(w, 12), HASH_VALS[k - 20])
    ensures Parity(Upper(FlipBit(w, k))) == (Parity(Upper(w)) != (k >= 20))
  {
    SynFlip(w, k, 12);
    UpperFlip(w, k);
    XorUnit(Syn(w, 12));
  }

  /** The columns of the check bits 20 to 23 are the powers of two, that of the parity bit 24
      is zero, and the others are the remaining numbers up to 11 in their order. */
  lemma TableOfColumns(i: nat, j: nat)
    ensures |HASH_VALS| == 12 && HASH_VALS[4] == 0 && (i < 4 ==> HASH_VALS[i] == Pow2(i))
    ensures 5 <= i < 12 ==> HASH_VALS[i] !in {0, 1, 2, 4, 8}
    ensures 5 <= i < j < 12 ==> HASH_VALS[i] < HASH_VALS[j] < 12
  {
  }

  /** Odd parity without a column that explains it returns 2, even parity with a nonzero
      syndrome 3. */
  lemma ReturnCodes(w: u32)
    ensures Decode(w).ret in {0, 1, 2, 3}
    ensures Decode(w).ret == 3 <==> Syn(w, 12) != 0 && !Parity(Upper(w))
    ensures Decode(w).ret == 2 <==> Parity(Upper(w)) && forall k | 0 <= k < 12 :: Syn(w, 12) != HASH_VALS[k]
  {
    assert HASH_VALS[4] == 0;
  }

  lemma ValuesDistinct(i: nat, j: nat)
    requires i < 12 && j < 12 && HASH_VALS[i] == HASH_VALS[j]
    ensures i == j
  {
  }

  lemma FlipTwice(w: u32, k: nat)
    requires k < 32
    ensures FlipBit(FlipBit(w, k), k) == w
  {
    XorCancel(w, Pow2(k));
  }

  // ----- main results

  lemma SingleErrorCorrected(w: u32, k: nat)
    requires Codeword(w) && k < 32
    ensures k >= 20 ==> Decode(FlipBit(w, k)) == Decoded(1, w)
    ensures k < 20 ==> Decode(FlipBit(w, k)) == Decoded(0, FlipBit(w, k))
  {
    FlipEffect(w, k);
    FlipTwice(w, k);
    if k >= 20 {
      XorUnit(HASH_VALS[k - 20]);
      var i := Find(HASH_VALS[k - 20], 0);
      if i < 12 { ValuesDistinct(i, k - 20); }
      if k != 24 && HASH_VALS[k - 20] == 0 { ValuesDistinct(4, k - 20); }
    }
  }

  lemma DoubleErrorDetected(w: u32, j: nat, k: nat)
    requires Codeword(w) && 20 <= j < k < 32
    ensures Decode(FlipBit(FlipBit(w, j), k)).ret == 3
  {
    FlipEffect(w, j);
    FlipEffect(FlipBit(w, j), k);
    XorUnit(HASH_VALS[j - 20]);
    XorZero(HASH_VALS[j - 20], HASH_VALS[k - 20]);
    if HASH_VALS[j - 20] == HASH_VALS[k - 20] { ValuesDistinct(j - 20, k - 20); }
  }

  lemma Within(w: u32, k: nat)
    requires 20 <= k < 32
    ensures Codeword(FlipBit(w, k)) <==> Parity(Upper(w)) && Syn(w, 12) == HASH_VALS[k - 20]
  {
    FlipEffect(w, k);
    XorZero(Syn(w, 12), HASH_VALS[k - 20]);
  }

  /** Success means a codeword at distance at most one, and that codeword is the result. */
  lemma AcceptedExactly(w: u32)
    ensures Decode(w).ret == 0 <==> Codeword(w)
    ensures Decode(w).ret == 1 <==> exists k | 20 <= k < 32 :: Codeword(FlipBit(w, k))
    ensures Decode(w).ret <= 1 ==> Codeword(Decode(w).word)
  {
    var s := Syn(w, 12);
    if k :| 20 <= k < 32 && Codeword(FlipBit(w, k)) {
      Within(w, k);
      assert Find(s, 0) <= k - 20;
    }
    if Decode(w).ret == 1 {
      var k := if s == 0 then 24 else 20 + Find(s, 0);
      Within(w, k);
      assert Codeword(FlipBit(w, k));
    }
  }
}
