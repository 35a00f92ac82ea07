/** The in-place decoders of bdk/soc/fuse.c, proved against the codes they implement. */
module PatchHash {
  import opened Bits
  import opened PatchCode

  // ----- _parity32_even

  method Parity32Even(words: array<u32>, count: nat) returns (parity: u32)
    requires 0 < count <= words.Length
    ensures parity == if OddParity(words[..], count) then 1 else 0
  {
    var acc := words[0];
    for i := 1 to count
      invariant Parity(acc) == OddParity(words[..], i)
    {
      ParityXor(acc, words[i]);
      acc := Xor32(acc, words[i]);
    }
    parity := FoldParity(acc);
  }

  /** The last lines of `_parity32_even`: a word folded down to one bit. */
  function FoldParity(acc: u32): (r: u32)
    ensures r == if Parity(acc) then 1 else 0
  {
    var x := Xor(acc % 0x1_0000, acc / 0x1_0000);
    var y := Xor(x % 0x100, x / 0x100);
    var z := Xor(y % 0x10, y / 0x10);
    var t := Xor(z % 4, z / 4);
    FoldStep(acc, 16, acc % 0x1_0000, acc / 0x1_0000);
    FoldStep(x, 8, x % 0x100, x / 0x100);
    FoldStep(y, 4, y % 0x10, y / 0x10);
    FoldStep(z, 2, z % 4, z / 4);
    FoldStep(t, 1, t % 2, t / 2);
    OneBit(Xor(t % 2, t / 2));
    Xor(t % 2, t / 2)
  }

  lemma FoldStep(x: nat, k: nat, lo: nat, hi: nat)
    requires k in {1, 2, 4, 8, 16}
    ensures Pow2(16) == 0x1_0000 && Pow2(8) == 0x100 && Pow2(4) == 0x10 && Pow2(2) == 4 && Pow2(1) == 2
    ensures lo < Pow2(k) && hi < Pow2(k) && x == hi * Pow2(k) + lo
            ==> Parity(Xor(lo, hi)) == Parity(x) && Xor(lo, hi) < Pow2(k)
  {
    Pow2Values();
    assert Pow2(2) == 4;
    if lo < Pow2(k) && hi < Pow2(k) && x == hi * Pow2(k) + lo {
      ParityFold(x, k, lo, hi);
      XorBound(lo, hi, k);
    }
  }

  lemma OneBit(x: nat)
    requires x < 2
    ensures Parity(x) <==> x == 1
  {
    assert x / 2 == 0;
  }

  // ----- _patch_hash_multi

  /** The hash of one word as the inner loop of `_patch_hash_multi` accumulates it. */
  function HashBits(w: nat, i: nat, n: nat): nat {
    if n == 0 then 0
    else Xor(HashBits(w, i, n - 1), if Bit(w, n - 1) then 0x4000 + i * 32 + (n - 1) else 0)
  }

  function HashWords(ws: seq<u32>, n: nat): nat
    requires n <= |ws|
  {
    if n == 0 then 0 else Xor(HashWords(ws, n - 1), HashBits(ws[n - 1], n - 1, 32))
  }

  /** `w & 0xf0000` */
  function Mid4(w: u32): u32 {
    w / 0x1_0000 % 0x10 * 0x1_0000
  }

  lemma Mid4Bits(w: u32, k: nat)
    ensures Bit(Mid4(w), k) == (16 <= k < 20 && Bit(w, k))
  {
    Pow2Values();
    var h := w / Pow2(16);
    BitShift(h % Pow2(4), 16, k);
    if k >= 16 {
      BitMod(h, 4, k - 16);
      BitDiv(w, 16, k - 16, h);
    }
  }

  lemma {:induction false} HashBitsLater(w: nat, i: nat, n: nat)
    requires i > 0
    ensures HashBits(w, i, n) == SynBits(w, i, n)
  {
    if n > 0 { HashBitsLater(w, i, n - 1); }
  }

  lemma {:induction false} ModGrows(w: nat, n: nat)
    ensures w % Pow2(n + 1) == w % Pow2(n) + if Bit(w, n) then Pow2(n) else 0
  {
    if n == 0 {
      assert Pow2(0) == 1 && Pow2(1) == 2;
      assert w % 1 == 0;
    } else {
      ModGrows(w / 2, n - 1);
      ModHalf(w, n);
      ModHalf(w, n + 1);
    }
  }

  /** The check bits of word 0 are their own syndrome. */
  lemma {:induction false} CheckBits(w: u32, n: nat)
    requires n <= 15
    ensures SynBits(w, 0, n) == w % Pow2(n)
    ensures HashBits(Mid4(w), 0, n) == 0
  {
    if n == 0 {
      assert w % 1 == 0;
    } else {
      CheckBits(w, n - 1);
      ModGrows(w, n - 1);
      Mid4Bits(w, n - 1);
      var lo := w % Pow2(n - 1);
      XorUnit(lo);
      XorUnit(0);
      if Bit(w, n - 1) {
        XorAdd(1, lo, n - 1);
        XorComm(Pow2(n - 1), lo);
      }
    }
  }

  lemma {:induction false} Word0Hash(w: u32, n: nat)
    requires 15 <= n <= 32
    ensures SynBits(w, 0, n) == Xor(HashBits(Mid4(w), 0, n), w % 0x8000)
  {
    hide Xor, Bit, Mid4;
    if n == 15 {
      assert Pow2(15) == 0x8000 by { Pow2Values(); }
      CheckBits(w, 15);
      XorUnit(w % 0x8000);
    } else {
      Word0Hash(w, n - 1);
      Mid4Bits(w, n - 1);
      var a, c := HashBits(Mid4(w), 0, n - 1), if 16 <= n - 1 < 20 && Bit(w, n - 1) then 0x4000 + n - 1 else 0;
      XorSwap(a, w % 0x8000, c);
      XorUnit(SynBits(w, 0, n - 1));
      XorUnit(a);
    }
  }

  /** The code's hash of the masked words, combined with the check bits, is the syndrome. */
  lemma {:induction false} HashIsSyndrome(ws: seq<u32>, n: nat)
    requires 0 < n <= |ws|
    ensures Xor(HashWords(ws[0 := Mid4(ws[0])], n), ws[0] % 0x8000) == Syndrome(ws, n)
  {
    var ms, c := ws[0 := Mid4(ws[0])], ws[0] % 0x8000;
    if n == 1 {
      assert HashWords(ms, 0) == 0 && Syndrome(ws, 0) == 0;
      Word0Hash(ws[0], 32);
      XorUnit(HashBits(ms[0], 0, 32));
      XorUnit(SynBits(ws[0], 0, 32));
    } else {
      HashIsSyndrome(ws, n - 1);
      HashBitsLater(ws[n - 1], n - 1, 32);
      XorSwap(HashWords(ms, n - 1), HashBits(ms[n - 1], n - 1, 32), c);
    }
  }

  lemma {:induction false} HashBitsZero(i: nat, n: nat)
    ensures HashBits(0, i, n) == 0
  {
    if n > 0 {
      HashBitsZero(i, n - 1);
      BitZero(n - 1);
      XorUnit(0);
    }
  }

  function CountBits(h: nat, n: nat): nat {
    if n == 0 then 0 else CountBits(h, n - 1) + if Bit(h, n - 1) then 1 else 0
  }

  lemma {:induction false} CountNone(h: nat, n: nat)
    ensures CountBits(h, n) == 0 <==> h % Pow2(n) == 0
  {
    if n == 0 {
      assert h % 1 == 0;
    } else {
      CountNone(h, n - 1);
      ModGrows(h, n - 1);
    }
  }

  lemma {:induction false} CountOne(h: nat, n: nat)
    ensures CountBits(h, n) == 1 <==> exists k | 0 <= k < n :: h % Pow2(n) == Pow2(k)
  {
    if n > 0 {
      CountOne(h, n - 1);
      CountNone(h, n - 1);
      ModGrows(h, n - 1);
      forall k | 0 <= k < n - 1 ensures Pow2(k) < Pow2(n - 1) { Pow2Mono(k, n - 1); }
    }
  }

  /** `bits16_19 ^ bit15 ^ bits0_14` */
  lemma Word0Rebuilt(w: u32)
    ensures Xor(Xor(Mid4(w), w / 0x8000 % 2 * 0x8000), w % 0x8000) == Low20(w)
  {
    hide Xor;
    Pow2Values();
    var m, b, l := w / 0x1_0000 % 0x10, w / 0x8000 % 2, w % 0x8000;
    XorAdd(m, b * 0x8000, 16);
    XorAdd(2 * m + b, l, 15);
    Low20Parts(w);
  }

  lemma Low20Parts(w: u32)
    ensures Low20(w) == w / 0x1_0000 % 0x10 * 0x1_0000 + w / 0x8000 % 2 * 0x8000 + w % 0x8000
  {
    var q := w / 0x8000;
    assert q / 2 == w / 0x1_0000 && w == q * 0x8000 + w % 0x8000;
    LowDigits(q, w % 0x8000);
  }

  lemma LowDigits(q: nat, l: nat)
    requires l < 0x8000
    ensures (q * 0x8000 + l) % 0x10_0000 == q / 2 % 0x10 * 0x1_0000 + q % 2 * 0x8000 + l
  {
    var d, h := q / 2, q / 2 / 0x10;
    assert q == 2 * d + q % 2 && d == 0x10 * h + d % 0x10;
  }

  method HashLoop(words: array<u32>, count: nat) returns (hash: u32)
    requires 0 < count <= words.Length && count <= MAX_WORDS
    ensures hash == HashWords(words[..], count)
  {
    hash := 0;
    for i := 0 to count
      invariant hash == HashWords(words[..], i)
    {
      var w := words[i];
      if w != 0 {
        ghost var before := hash;
        XorUnit(hash);
        for bitpos := 0 to 32
          invariant hash == Xor(before, HashBits(w, i, bitpos))
        {
          XorUnit(hash);
          if Bit(w, bitpos) {
            XorAssoc(before, HashBits(w, i, bitpos), 0x4000 + i * 32 + bitpos);
            hash := Xor32(hash, 0x4000 + i * 32 + bitpos);
          } else {
            XorUnit(HashBits(w, i, bitpos));
          }
        }
      } else {
        HashBitsZero(i, 32);
        XorUnit(hash);
      }
    }
  }

  /** Lines 248 to 269: the syndrome, leaving word 0 without its upper bits. */
  method TakeHash(words: array<u32>, count: nat) returns (hash: u32)
    requires 0 < count <= words.Length && count <= MAX_WORDS
    modifies words
    ensures hash == Syndrome(old(words[..count]), count)
    ensures words[..count] == Payload(old(words[..count]))
    ensures words[count..] == old(words[count..])
  {
    ghost var ws := words[..count];
    var bits0_14 := words[0] % 0x8000;
    var bit15 := words[0] / 0x8000 % 2 * 0x8000;
    var bits16_19 := Mid4(words[0]);
    words[0] := bits16_19;
    hash := HashLoop(words, count);
    PrefixHash(words[..], count, count);
    assert words[..][..count] == ws[0 := Mid4(ws[0])];
    HashIsSyndrome(ws, count);
    hash := Xor32(hash, bits0_14);
    Word0Rebuilt(ws[0]);
    words[0] := Xor32(Xor32(bits16_19, bit15), bits0_14);
  }

  method OneCheckBit(hash: u32) returns (one: bool)
    requires hash < 0x8000
    ensures one == IsCheckColumn(hash)
  {
    hide IsCheckColumn, Bit;
    var numSet := 0;
    for bitpos := 0 to 15
      invariant numSet == CountBits(hash, bitpos)
    {
      if Bit(hash, bitpos) {
        numSet := numSet + 1;
      }
    }
    OneColumn(hash);
    one := numSet == 1;
  }

  lemma OneColumn(hash: nat)
    requires hash < 0x8000
    ensures CountBits(hash, 15) == 1 <==> IsCheckColumn(hash)
  {
    hide CountBits, Bit;
    CountOne(hash, 15);
    assert Pow2(15) == 0x8000 by { Pow2Values(); }
    SmallRemainder(hash);
    assert hash % Pow2(15) == hash;
    if CountBits(hash, 15) == 1 {
      var k :| 0 <= k < 15 && hash % Pow2(15) == Pow2(k);
      assert hash == Pow2(k);
    }
    if IsCheckColumn(hash) {
      var k :| 0 <= k < 15 && hash == Pow2(k);
      assert hash % Pow2(15) == Pow2(k);
    }
  }

  lemma SmallRemainder(hash: nat)
    requires hash < 0x8000
    ensures hash % 0x8000 == hash
  {
  }

  method PatchHashMulti(words: array<u32>, count: nat) returns (ret: int)
    requires 0 < count <= words.Length && count <= MAX_WORDS
    modifies words
    ensures Decode(old(words[..count])) == Decoded(ret, words[..count])
    ensures ret == 0 <==> Codeword(old(words[..count]))
    ensures words[count..] == old(words[count..])
  {
    hide Syndrome, OddParity, Xor, Pow2;
    ghost var ws := words[..count];
    CodewordAccepted(ws);
    var parityBit := Parity32Even(words, count);
    PrefixParity(words[..], count, count);
    assert words[..][..count] == ws;
    var hash := TakeHash(words, count);
    SyndromeBound(ws, count);

    if hash == 0 {
      if parityBit == 0 {
        return 0;
      }
      assert Pow2(15) == 0x8000 by { Pow2Values(); }
      words[0] := Xor32(words[0], 0x8000);
      return 1;
    }
    if parityBit == 0 {
      return 3;
    }
    var h: int := hash;
    var bitcount := (h - 0x4000) % 0x1_0000_0000;
    if bitcount < 16 || bitcount >= count * 32 {
      var one := OneCheckBit(hash);
      if !one {
        return 2;
      }
      words[0] := Xor32(words[0], hash);
      return 1;
    }
    FlipHere(words, count, bitcount, hash % 0x20);
    return 1;
  }

  /** `words[bitcount / 32] ^= 1 << shift` */
  method FlipHere(words: array<u32>, ghost count: nat, bitcount: nat, shift: nat)
    requires count <= words.Length && bitcount < 32 * count && shift == bitcount % 32
    modifies words
    ensures words[..count] == Flip(old(words[..count]), bitcount)
    ensures words[count..] == old(words[count..])
  {
    Pow2Mono(shift, 32);
    Pow2Values();
    words[bitcount / 32] := Xor32(words[bitcount / 32], Pow2(shift));
  }

  lemma {:induction false} PrefixParity(ws: seq<u32>, n: nat, k: nat)
    requires k <= n <= |ws|
    ensures OddParity(ws, k) == OddParity(ws[..n], k)
  {
    if k > 0 { PrefixParity(ws, n, k - 1); }
  }

  lemma {:induction false} PrefixHash(ws: seq<u32>, n: nat, k: nat)
    requires k <= n <= |ws|
    ensures HashWords(ws, k) == HashWords(ws[..n], k)
  {
    if k > 0 { PrefixHash(ws, n, k - 1); }
  }
}
