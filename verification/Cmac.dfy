/** `se_aes_cmac_128` of bdk/sec/se.c against sections 2.3 and 2.4 of RFC 4493. */
module Cmac {
  import opened Bits
  import opened Gf128
  import opened GfMul
  import opened Xts
  import XtsDrivers

  const MAX_SIZE := 0xFFFF_FFF0

  const ZERO: Block := [0, 0, 0, 0, 0, 0, 0, 0, 0, 0, 0, 0, 0, 0, 0, 0]

  // ----- the standard

  /** Section 2.3: the two subkeys. */
  function Subkey1(f: Block -> Block): Block {
    DoubleBe(f(ZERO))
  }

  function Subkey2(f: Block -> Block): Block {
    DoubleBe(Subkey1(f))
  }

  /** A one bit and zeros up to the end of the block. */
  function Padding(m: seq<u8>): Block
    requires |m| < 16
  {
    m + [0x80] + seq(15 - |m|, _ => 0)
  }

  /** Section 2.4, from the chaining value `x` on. */
  function CmacFrom(f: Block -> Block, x: Block, m: seq<u8>): Block
    decreases |m|
  {
    if |m| > 16 then CmacFrom(f, f(XorBlock(m[..16], x)), m[16..])
    else if |m| == 16 then f(XorBlock(XorBlock(m, Subkey1(f)), x))
    else f(XorBlock(XorBlock(Padding(m), Subkey2(f)), x))
  }

  function AesCmac(f: Block -> Block, m: seq<u8>): Block {
    CmacFrom(f, ZERO, m)
  }

  // ----- the engine

  /** Cipher block chaining, only the last value being kept. */
  function Chain(f: Block -> Block, x: Block, data: seq<u8>): Block
    requires Aligned(data)
    decreases |data|
  {
    if data == [] then x else Chain(f, f(XorBlock(data[..16], x)), data[16..])
  }

  class Engine {
    const keys: seq<KeySlot>
    var ivOriginal: seq<Block>
    var ivUpdated: seq<Block>
    var keyIndex: nat
    var ivSelUpdated: bool
    var toHashReg: bool
    var blockCount: nat
    var hashReg: Block

    ghost predicate Valid()
      reads this
    {
      |keys| == |ivOriginal| == |ivUpdated| == KEY_SLOTS
    }

    constructor (keys: seq<KeySlot>)
      requires |keys| == KEY_SLOTS
      ensures Valid() && this.keys == keys
    {
      this.keys := keys;
      ivOriginal, ivUpdated := seq(KEY_SLOTS, _ => ZERO), seq(KEY_SLOTS, _ => ZERO);
      keyIndex, ivSelUpdated, toHashReg, blockCount, hashReg := 0, false, false, 0, ZERO;
    }

    /** One operation: `blockCount + 1` blocks of `src`, chained from the selected IV. The
        engine may report an error, and then the updated IV and the result are anything. */
    method Start(src: seq<u8>) returns (ok: bool, out: Block)
      requires Valid() && keyIndex < KEY_SLOTS && 16 * (blockCount + 1) <= |src|
      modifies this`ivUpdated, this`hashReg
      ensures Valid()
      ensures ok ==> out == Chain(keys[keyIndex].enc, old(if ivSelUpdated then ivUpdated else ivOriginal)[keyIndex],
                                  src[..16 * (blockCount + 1)])
      ensures ok ==> ivUpdated == old(ivUpdated)[keyIndex := out] && (toHashReg ==> hashReg == out)
    {
      hide Chain, XorBlock;
      ghost var f, n := keys[keyIndex].enc, blockCount + 1;
      ghost var x := (if ivSelUpdated then ivUpdated else ivOriginal)[keyIndex];
      out := (if ivSelUpdated then ivUpdated else ivOriginal)[keyIndex];
      var rest := src[..16 * (blockCount + 1)];
      while rest != []
        modifies {}
        invariant Aligned(rest)
        invariant Chain(f, out, rest) == Chain(f, x, src[..16 * n])
        decreases |rest|
      {
        ChainNext(f, out, rest);
        out := keys[keyIndex].enc(XorBlock(rest[..16], out));
        rest := rest[16..];
      }
      ChainDone(f, out);
      ok := *;
      if ok {
        ivUpdated := ivUpdated[keyIndex := out];
        if toHashReg {
          hashReg := out;
        }
      } else {
        var u: Block, h: Block := *, *;
        ivUpdated, hashReg := ivUpdated[keyIndex := u], h;
      }
    }

    /** `se_aes_iv_clear` and `se_aes_iv_updated_clear` */
    method ClearIvs(ks: nat)
      requires Valid() && ks < KEY_SLOTS
      modifies this`ivOriginal, this`ivUpdated
      ensures Valid() && ivOriginal == old(ivOriginal)[ks := ZERO] && ivUpdated == old(ivUpdated)[ks := ZERO]
    {
      ivOriginal, ivUpdated := ivOriginal[ks := ZERO], ivUpdated[ks := ZERO];
    }

    /** `se_aes_crypt_hash` of one block into itself, encrypting */
    method CryptHash(ks: nat, buf: array<u8>) returns (ok: bool)
      requires Valid() && ks < KEY_SLOTS && buf.Length == 16
      modifies buf, this`ivUpdated, this`hashReg, this`keyIndex, this`ivSelUpdated, this`toHashReg, this`blockCount
      ensures Valid()
      ensures ok ==> buf[..] == keys[ks].enc(XorBlock(old(buf[..]), old(ivOriginal)[ks]))
    {
      hide Chain, XorBlock;
      keyIndex, ivSelUpdated, toHashReg, blockCount := ks, false, false, 0;
      ghost var b: Block := buf[..];
      var out;
      ok, out := Start(buf[..]);
      assert b[..16] == b;
      ChainOne(keys[ks].enc, ivOriginal[ks], b);
      if ok {
        XtsDrivers.PutBlock(buf, 0, out);
      }
    }

    /** The subkey for a message of `n` bytes. */
    method MakeSubkey(ks: nat, n: nat, key: array<u8>) returns (ok: bool)
      requires Valid() && ks < KEY_SLOTS && key.Length == 16 && key[..] == ZERO
      modifies key, this`ivOriginal, this`ivUpdated, this`hashReg
      modifies this`keyIndex, this`ivSelUpdated, this`toHashReg, this`blockCount
      ensures Valid() && (ok ==> key[..] == SubkeyFor(keys[ks].enc, n))
      ensures var v := BeVal(keys[ks].enc(ZERO));
        ok ==> BeVal(key[..]) == (if n % 16 == 0 then MulX(v) else MulX(MulX(v)))
    {
      hide Chain, XorBlock, DoubleBe, BeVal, MulX;
      SubkeysAreMulX(keys[ks].enc);
      ClearIvs(ks);
      ok := CryptHash(ks, key);
      if !ok {
        return;
      }
      BlockXorZero(ZERO);
      MulXBe(key);
      if n % 16 != 0 {
        MulXBe(key);
      }
    }

    /** All blocks before the last one; the chaining value stays in the IV. */
    method ChainBlocks(ks: nat, src: array<u8>, numBlocks: nat) returns (ok: bool)
      requires Valid() && ks < KEY_SLOTS && numBlocks == (src.Length + 15) / 16
      modifies this`ivOriginal, this`ivUpdated, this`hashReg
      modifies this`keyIndex, this`ivSelUpdated, this`toHashReg, this`blockCount
      ensures Valid() && keyIndex == ks && toHashReg
      ensures ok ==> (if ivSelUpdated then ivUpdated else ivOriginal)[ks] == ChainedBefore(keys[ks].enc, src[..])
    {
      hide Chain, XorBlock;
      ok := true;
      keyIndex, ivSelUpdated, toHashReg := ks, false, true;
      ClearIvs(ks);
      if numBlocks > 1 {
        blockCount := numBlocks - 2;
        var out;
        ok, out := Start(src[..]);
        ivSelUpdated := ok;
      } else {
        ChainDone(keys[ks].enc, ZERO);
      }
    }

    /** `se_aes_cmac_128` */
    method Cmac128(ks: nat, dst: array<u8>, src: array<u8>) returns (ok: bool)
      requires Valid() && ks < KEY_SLOTS && dst.Length == 16 && src.Length <= MAX_SIZE
      modifies dst, this`ivOriginal, this`ivUpdated, this`hashReg
      modifies this`keyIndex, this`ivSelUpdated, this`toHashReg, this`blockCount
      ensures Valid()
      ensures ok ==> dst[..] == Tag(keys[ks].enc, old(src[..]))
      ensures ok && src.Length > 0 ==> dst[..] == AesCmac(keys[ks].enc, old(src[..]))
      ensures ok && src.Length > 0 ==> TagInNumbers(keys[ks].enc, old(src[..]), dst[..])
    {
      hide Chain, XorBlock, LastOf, SubkeyFor, ChainedBefore, Tag, AesCmac, TagInNumbers, MulX, BeVal;
      ghost var m := src[..];
      var key := new u8[16](_ => 0);
      assert key[..] == ZERO;
      ok := MakeSubkey(ks, src.Length, key);
      if !ok {
        return;
      }
      ok := ChainBlocks(ks, src, (src.Length + 15) / 16);
      if !ok {
        return;
      }
      ok := Finish(src, key);
      ReadResult(dst);
      TagIs(keys[ks].enc, m);
    }

    /** Lines 692 to 706: the last block, with the subkey added, through the engine. */
    method Finish(src: array<u8>, key: array<u8>) returns (ok: bool)
      requires Valid() && keyIndex < KEY_SLOTS && key.Length == 16 && toHashReg
      modifies this`ivUpdated, this`hashReg, this`blockCount
      ensures Valid()
      ensures var x := old(if ivSelUpdated then ivUpdated else ivOriginal)[keyIndex];
        ok ==> hashReg == keys[keyIndex].enc(XorBlock(XorBlock(LastOf(src[..]), key[..]), x))
    {
      hide Chain, XorBlock, LastOf;
      var last := new u8[16](_ => 0);
      assert last[..] == ZERO;
      LastBlock(src, last);
      XorKey(last, key);
      blockCount := 0;
      ok := LastStart(last);
    }

    /** The result register, word by word. */
    method ReadResult(dst: array<u8>)
      requires dst.Length == 16
      modifies dst
      ensures dst[..] == hashReg
    {
      for i := 0 to 16
        modifies dst
        invariant forall j | 0 <= j < i :: dst[j] == hashReg[j]
      {
        dst[i] := hashReg[i];
      }
    }

    method LastStart(last: array<u8>) returns (ok: bool)
      requires Valid() && keyIndex < KEY_SLOTS && last.Length == 16 && blockCount == 0 && toHashReg
      modifies this`ivUpdated, this`hashReg
      ensures Valid()
      ensures var x := old(if ivSelUpdated then ivUpdated else ivOriginal)[keyIndex];
        ok ==> hashReg == keys[keyIndex].enc(XorBlock(last[..], x))
    {
      var out;
      ChainOne(keys[keyIndex].enc, (if ivSelUpdated then ivUpdated else ivOriginal)[keyIndex], last[..]);
      assert last[..][..16] == last[..];
      ok, out := Start(last[..]);
    }
  }

  function SubkeyFor(f: Block -> Block, n: nat): Block {
    if n % 16 != 0 then Subkey2(f) else Subkey1(f)
  }

  function ChainedBefore(f: Block -> Block, m: seq<u8>): Block {
    var n := (|m| + 15) / 16;
    Chain(f, ZERO, if n > 1 then m[..16 * (n - 1)] else [])
  }

  /** The tag that the code computes. */
  function Tag(f: Block -> Block, m: seq<u8>): Block {
    if m == [] then f(Subkey1(f)) else AesCmac(f, m)
  }

  lemma TagIs(f: Block -> Block, m: seq<u8>)
    ensures f(XorBlock(XorBlock(LastOf(m), SubkeyFor(f, |m|)), ChainedBefore(f, m))) == Tag(f, m)
    ensures m != [] ==> Tag(f, m) == AesCmac(f, m) && TagInNumbers(f, m, Tag(f, m))
  {
    hide TagInNumbers, XorBlock, Subkey1, Subkey2, Chain, LastOf, CmacFrom;
    if m == [] {
      EmptyTag(f);
    } else {
      var n := (|m| + 15) / 16 - 1;
      CmacSplits(f, ZERO, m, n);
      CmacLast(f, ChainedBefore(f, m), m, n);
      assert m[..0] == [];
      CmacInNumbers(f, m);
    }
  }

  lemma ChainNext(f: Block -> Block, x: Block, data: seq<u8>)
    requires Aligned(data) && data != []
    ensures |data| >= 16 && Aligned(data[16..]) && Chain(f, x, data) == Chain(f, f(XorBlock(data[..16], x)), data[16..])
  {
  }

  lemma ChainDone(f: Block -> Block, x: Block)
    ensures Chain(f, x, []) == x
  {
  }

  lemma ChainOne(f: Block -> Block, x: Block, b: Block)
    ensures Chain(f, x, b) == f(XorBlock(b, x))
  {
    hide XorBlock;
    assert b[..16] == b && b[16..] == [];
    ChainNext(f, x, b);
  }

  lemma BlockXorZero(b: Block)
    ensures XorBlock(b, ZERO) == b
  {
    forall i | 0 <= i < 16 ensures XorBlock(b, ZERO)[i] == b[i] {
      XorUnit(b[i]);
    }
  }

  /** What the last block is, before the subkey is added. */
  function LastOf(m: seq<u8>): Block {
    if |m| % 16 != 0 then Padding(m[|m| - |m| % 16..])
    else if |m| >= 16 then m[|m| - 16..]
    else ZERO
  }

  method LastBlock(src: array<u8>, last: array<u8>)
    requires last.Length == 16 && last != src && last[..] == ZERO
    modifies last
    ensures last[..] == LastOf(src[..])
  {
    var n, r := src.Length, src.Length % 16;
    if r != 0 {
      CopyInto(src, n - r, last, r);
      last[r] := 0x80;
      assert src[n - r..n - r + r] == src[n - r..];
      PadPut(src[n - r..]);
    } else if n >= 16 {
      CopyInto(src, n - 16, last, 16);
      assert last[..] == src[n - 16..];
    }
  }

  lemma PadPut(m: seq<u8>)
    requires |m| < 16
    ensures (m + seq(16 - |m|, _ => 0))[|m| := 0x80] == Padding(m)
  {
  }

  method CopyInto(src: array<u8>, from: nat, last: array<u8>, count: nat)
    requires last.Length == 16 && last != src && last[..] == ZERO && count <= 16 && from + count <= src.Length
    modifies last
    ensures last[..] == src[from..from + count] + seq(16 - count, _ => 0)
  {
    for j := 0 to count
      invariant forall k | 0 <= k < j :: last[k] == src[from + k]
      invariant forall k | j <= k < 16 :: last[k] == 0
    {
      last[j] := src[from + j];
    }
  }

  method XorKey(last: array<u8>, key: array<u8>)
    requires last.Length == 16 == key.Length && last != key
    modifies last
    ensures last[..] == XorBlock(old(last[..]), key[..])
  {
    for i := 0 to 16
      invariant forall j | 0 <= j < i :: last[j] == Xor8(old(last[j]), key[j])
      invariant forall j | i <= j < 16 :: last[j] == old(last[j])
    {
      last[i] := Xor8(last[i], key[i]);
    }
  }

  /** The whole blocks before the last one are chained, then the last one is added. */
  lemma {:induction false} CmacSplits(f: Block -> Block, x: Block, m: seq<u8>, n: nat)
    requires 16 * n < |m| <= 16 * n + 16
    ensures CmacFrom(f, x, m) == CmacFrom(f, Chain(f, x, m[..16 * n]), m[16 * n..])
    decreases n
  {
    hide XorBlock, Chain, CmacFrom;
    if n > 0 {
      CmacNext(f, x, m);
      var rest, y := m[16..], f(XorBlock(m[..16], x));
      CmacSplits(f, y, rest, n - 1);
      ChainNext(f, x, m[..16 * n]);
      assert m[..16 * n][..16] == m[..16] && m[..16 * n][16..] == rest[..16 * (n - 1)];
      assert m[16 * n..] == rest[16 * (n - 1)..];
    } else {
      ChainDone(f, x);
      assert m[..0] == [] && m[0..] == m;
    }
  }

  lemma CmacNext(f: Block -> Block, x: Block, m: seq<u8>)
    requires |m| > 16
    ensures CmacFrom(f, x, m) == CmacFrom(f, f(XorBlock(m[..16], x)), m[16..])
  {
  }

  lemma CmacLast(f: Block -> Block, x: Block, m: seq<u8>, n: nat)
    requires 16 * n < |m| <= 16 * n + 16
    ensures var k := if |m| == 16 * n + 16 then Subkey1(f) else Subkey2(f);
      CmacFrom(f, x, m[16 * n..]) == f(XorBlock(XorBlock(LastOf(m), k), x))
  {
    hide XorBlock, Subkey1, Subkey2, Padding;
    LastOfTail(m, n, |m| - 16 * n);
  }

  lemma LastOfTail(m: seq<u8>, n: nat, r: nat)
    requires |m| == 16 * n + r && 0 < r <= 16
    ensures LastOf(m) == if r == 16 then m[16 * n..] else Padding(m[16 * n..])
  {
    hide Padding;
    assert |m| % 16 == if r == 16 then 0 else r;
  }

  lemma EmptyTag(f: Block -> Block)
    ensures f(XorBlock(XorBlock(LastOf([]), SubkeyFor(f, 0)), ChainedBefore(f, []))) == f(Subkey1(f))
  {
    hide XorBlock;
    var k := Subkey1(f);
    BlockXorZero(XorBlock(ZERO, k));
    XorBlockComm(ZERO, k);
    BlockXorZero(k);
  }

  lemma XorBlockComm(a: Block, b: Block)
    ensures XorBlock(a, b) == XorBlock(b, a)
  {
    forall i | 0 <= i < 16 ensures XorBlock(a, b)[i] == XorBlock(b, a)[i] {
      XorComm(a[i], b[i]);
    }
  }

  // ----- in numbers

  /** Section 2.3 of RFC 4493 in numbers: the enciphered zero block multiplied by x once and
      twice. */
  lemma SubkeysAreMulX(f: Block -> Block)
    ensures BeVal(ZERO) == 0
    ensures BeVal(Subkey1(f)) == MulX(BeVal(f(ZERO))) && BeVal(Subkey2(f)) == MulX(MulX(BeVal(f(ZERO))))
  {
    hide DoubleBe, MulX, LeVal, LeBytes;
    ZeroBytes(16);
    assert Reverse(ZERO) == ZERO == LeBytes(0, 16);
    DoubleBeIsMulX(f(ZERO));
    DoubleBeIsMulX(Subkey1(f));
  }

  /** The partial block, one bit and zeros. */
  lemma PaddingBits(m: seq<u8>)
    requires |m| < 16
    ensures Padding(m)[..|m|] == m && Padding(m)[|m|] == 0x80
    ensures forall i | |m| < i < 16 :: Padding(m)[i] == 0
  {
  }

  /** Cipher block chaining from the first block to the last. */
  lemma {:induction false} ChainLast(f: Block -> Block, x: Block, a: seq<u8>, b: Block)
    requires Aligned(a)
    ensures Aligned(a + b) && Chain(f, x, []) == x
    ensures Chain(f, x, a + b) == f(BeBlock(Xor(BeVal(b), BeVal(Chain(f, x, a)))))
    decreases |a|
  {
    hide XorBlock, Xor, BeBlock, BeVal, Chain;
    ChainDone(f, x);
    if a == [] {
      assert a + b == b;
      ChainOne(f, x, b);
      XorInNumbers(b, x);
    } else {
      var y := f(XorBlock(a[..16], x));
      ChainNext(f, x, a);
      ChainNext(f, x, a + b);
      assert (a + b)[..16] == a[..16] && (a + b)[16..] == a[16..] + b;
      ChainLast(f, y, a[16..], b);
    }
  }

  lemma XorInNumbers(a: Block, b: Block)
    ensures XorBlock(a, b) == BeBlock(Xor(BeVal(a), BeVal(b)))
  {
    XorBlockIsXor(a, b);
    BeBlockVal(XorBlock(a, b));
  }

  /** The tag in numbers: the last block, the subkey for its length and the chaining value of
      the blocks before it. */
  ghost predicate TagInNumbers(f: Block -> Block, m: seq<u8>, tag: seq<u8>) {
    m != [] &&
    var k, last, x := BeVal(f(ZERO)), m[|BlocksBefore(m)|..], BeVal(Chain(f, ZERO, BlocksBefore(m)));
    tag == f(BeBlock(if |last| == 16 then Xor(Xor(BeVal(last), MulX(k)), x)
                     else Xor(Xor(BeVal(Padding(last)), MulX(MulX(k))), x)))
  }

  /** All whole blocks with something behind them. */
  function BlocksBefore(m: seq<u8>): (b: seq<u8>)
    requires m != []
    ensures Aligned(b) && b <= m && |b| < |m| <= |b| + 16
  {
    var n := (|m| - 1) / 16;
    assert (16 * n) % 16 == 0;
    m[..16 * n]
  }

  lemma CmacInNumbers(f: Block -> Block, m: seq<u8>)
    requires m != []
    ensures TagInNumbers(f, m, AesCmac(f, m))
  {
    hide XorBlock, Xor, BeBlock, BeVal, Chain, Padding, CmacFrom, Subkey1, Subkey2, MulX, LastOf;
    var n := (|m| - 1) / 16;
    assert BlocksBefore(m) == m[..16 * n];
    var x, k, last := Chain(f, ZERO, m[..16 * n]), SubkeyFor(f, |m|), LastOf(m);
    CmacSplits(f, ZERO, m, n);
    CmacLast(f, x, m, n);
    SubkeysAreMulX(f);
    XorBlockIsXor(last, k);
    XorInNumbers(XorBlock(last, k), x);
    LastOfTail(m, n, |m| - 16 * n);
  }

  // ----- the empty message

  /** The code and the standard agree on every message but the empty one, and on that one
      only for a key whose subkeys differ in exactly the top bit. */
  lemma TagExactly(k: KeySlot, m: seq<u8>)
    requires IsCipher(k)
    ensures Tag(k.enc, m) == AesCmac(k.enc, m) <==> m != [] || XorBlock(Subkey1(k.enc), Subkey2(k.enc)) == Padding([])
  {
    hide DoubleBe, Subkey1, Subkey2;
    var f := k.enc;
    var k1, k2, p := Subkey1(f), Subkey2(f), Padding([]);
    if m == [] {
      BlockXorZero(XorBlock(p, k2));
      if f(k1) == f(XorBlock(p, k2)) {
        assert k1 == k.dec(f(k1)) == XorBlock(p, k2);
        XorBlockTwice(p, k2);
      }
      XorBlockTwice(k1, k2);
    }
  }

  function Unchanged(b: Block): Block {
    b
  }

  /** With the cipher that changes nothing, the empty message gets the wrong tag. */
  lemma EmptyMessageExample()
    ensures IsCipher(KeySlot(Unchanged, Unchanged)) && Tag(Unchanged, []) != AesCmac(Unchanged, [])
  {
    DoubleZero();
    BlockXorZero(Padding([]));
    assert Subkey1(Unchanged) == ZERO && Subkey2(Unchanged) == ZERO;
    assert Padding([])[0] == 0x80 && ZERO[0] == 0;
  }

  lemma DoubleZero()
    ensures DoubleBe(ZERO) == ZERO
  {
    hide LeBytes, LeVal, MulX;
    ZeroBytes(16);
    assert LeBytes(0, 16) == ZERO == Reverse(ZERO);
    assert MulX(0) == 0 by { NoCarry(); }
  }

  lemma NoCarry()
    ensures MulX(0) == 0
  {
  }

  lemma {:induction false} ZeroBytes(n: nat)
    ensures LeBytes(0, n) == seq(n, _ => 0) && LeVal(LeBytes(0, n)) == 0
  {
    if n > 0 { ZeroBytes(n - 1); }
  }
}
