/** Tweaked block encryption of sectors, as the drivers of bdk/sec/se.c do it over an
    abstract AES engine. */
module Xts {
  import opened Bits
  import opened Gf128

  const KEY_SLOTS := 16

  /** A key slot: a cipher on blocks and its inverse. Which cipher is left open. */
  datatype KeySlot = KeySlot(enc: Block -> Block, dec: Block -> Block) {
    function Direction(encrypt: bool): Block -> Block {
      if encrypt then enc else dec
    }
  }

  ghost predicate IsCipher(k: KeySlot) {
    (forall b: Block :: k.dec(k.enc(b)) == b) && (forall b: Block :: k.enc(k.dec(b)) == b)
  }

  /** The two byte orders in which a tweak is doubled. */
  datatype Order = BigEndian | LittleEndian

  function Double(o: Order, t: Block): Block {
    if o.BigEndian? then DoubleBe(t) else DoubleLe(t)
  }

  function DoubleTimes(o: Order, t: Block, n: nat): Block
    decreases n
  {
    if n == 0 then t else DoubleTimes(o, Double(o, t), n - 1)
  }

  function XorBlock(a: Block, b: Block): Block {
    seq(16, i requires 0 <= i < 16 => Xor8(a[i], b[i]))
  }

  function Xor8(a: u8, b: u8): (r: u8)
    ensures r == Xor(a, b)
  {
    Pow2Values();
    XorBound(a, b, 8);
    Xor(a, b)
  }

  lemma XorBlockTwice(a: Block, b: Block)
    ensures XorBlock(XorBlock(a, b), b) == a
  {
    forall i | 0 <= i < 16 ensures XorBlock(XorBlock(a, b), b)[i] == a[i] {
      XorCancel(a[i], b[i]);
    }
  }

  /** Whole blocks. */
  predicate Aligned(data: seq<u8>) {
    |data| % 16 == 0
  }

  /** Each block is whitened with its tweak before and after the cipher; the tweak doubles
      from block to block (section 5.3 of IEEE Std 1619-2007, given the first tweak). */
  function Crypt(f: Block -> Block, o: Order, t: Block, data: seq<u8>): (r: seq<u8>)
    requires Aligned(data)
    ensures |r| == |data|
    decreases |data|
  {
    if data == [] then []
    else XorBlock(f(XorBlock(data[..16], t)), t) + Crypt(f, o, Double(o, t), data[16..])
  }

  /** The first of three passes: only the whitening. */
  function Whiten(o: Order, t: Block, data: seq<u8>): (r: seq<u8>)
    requires Aligned(data)
    ensures |r| == |data|
    decreases |data|
  {
    if data == [] then [] else XorBlock(data[..16], t) + Whiten(o, Double(o, t), data[16..])
  }

  /** The second pass: only the cipher. */
  function Ecb(f: Block -> Block, data: seq<u8>): (r: seq<u8>)
    requires Aligned(data)
    ensures |r| == |data|
    decreases |data|
  {
    if data == [] then [] else f(data[..16]) + Ecb(f, data[16..])
  }

  // ----- first block and rest

  lemma CryptCons(f: Block -> Block, o: Order, t: Block, x: Block, rest: seq<u8>)
    requires Aligned(rest)
    ensures Aligned(x + rest)
    ensures Crypt(f, o, t, x + rest) == XorBlock(f(XorBlock(x, t)), t) + Crypt(f, o, Double(o, t), rest)
  {
    assert (x + rest)[..16] == x && (x + rest)[16..] == rest;
  }

  lemma WhitenCons(o: Order, t: Block, x: Block, rest: seq<u8>)
    requires Aligned(rest)
    ensures Aligned(x + rest)
    ensures Whiten(o, t, x + rest) == XorBlock(x, t) + Whiten(o, Double(o, t), rest)
  {
    assert (x + rest)[..16] == x && (x + rest)[16..] == rest;
  }

  lemma EcbCons(f: Block -> Block, x: Block, rest: seq<u8>)
    requires Aligned(rest)
    ensures Aligned(x + rest)
    ensures Ecb(f, x + rest) == f(x) + Ecb(f, rest)
  {
    assert (x + rest)[..16] == x && (x + rest)[16..] == rest;
  }

  lemma Cons(data: seq<u8>) returns (x: Block, rest: seq<u8>)
    requires Aligned(data) && data != []
    ensures data == x + rest && Aligned(rest) && |rest| < |data| && |rest| / 16 == |data| / 16 - 1
  {
    x, rest := data[..16], data[16..];
  }

  // ----- main results

  /** Three passes over the data are one pass over its blocks. */
  lemma {:induction false} ThreePasses(f: Block -> Block, o: Order, t: Block, data: seq<u8>)
    requires Aligned(data)
    ensures Whiten(o, t, Ecb(f, Whiten(o, t, data))) == Crypt(f, o, t, data)
    decreases |data|
  {
    if data != [] {
      var x, rest := Cons(data);
      ThreePasses(f, o, Double(o, t), rest);
      hide XorBlock, Double;
      WhitenCons(o, t, x, rest);
      EcbCons(f, XorBlock(x, t), Whiten(o, Double(o, t), rest));
      WhitenCons(o, t, f(XorBlock(x, t)), Ecb(f, Whiten(o, Double(o, t), rest)));
      CryptCons(f, o, t, x, rest);
    }
  }

  /** Decryption undoes encryption, whatever the key, the tweak and the length. */
  lemma {:induction false} CryptRoundTrip(k: KeySlot, o: Order, t: Block, data: seq<u8>)
    requires IsCipher(k) && Aligned(data)
    ensures Crypt(k.dec, o, t, Crypt(k.enc, o, t, data)) == data
    decreases |data|
  {
    if data != [] {
      var x, rest := Cons(data);
      CryptRoundTrip(k, o, Double(o, t), rest);
      hide XorBlock, Double;
      CryptCons(k.enc, o, t, x, rest);
      CryptCons(k.dec, o, t, XorBlock(k.enc(XorBlock(x, t)), t), Crypt(k.enc, o, Double(o, t), rest));
      XorBlockTwice(k.enc(XorBlock(x, t)), t);
      XorBlockTwice(x, t);
    }
  }

  lemma {:induction false} DoubleTimesAdd(o: Order, t: Block, m: nat, n: nat)
    ensures DoubleTimes(o, DoubleTimes(o, t, m), n) == DoubleTimes(o, t, m + n)
    decreases m
  {
    hide Double;
    if m > 0 { DoubleTimesAdd(o, Double(o, t), m - 1, n); }
  }

  lemma {:induction false} DoubleTimesLast(o: Order, t: Block, n: nat)
    ensures Double(o, DoubleTimes(o, t, n)) == DoubleTimes(o, t, n + 1)
    decreases n
  {
    hide Double;
    if n > 0 { DoubleTimesLast(o, Double(o, t), n - 1); }
  }

  lemma CryptNil(f: Block -> Block, o: Order, t: Block, b: seq<u8>)
    ensures Crypt(f, o, t, []) == [] && [] + b == b
  {
  }

  /** Data can be processed in pieces, the tweak left by one being the start of the next. */
  lemma {:induction false} CryptResumes(f: Block -> Block, o: Order, t: Block, a: seq<u8>, b: seq<u8>, n: nat)
    requires |a| == 16 * n && Aligned(b)
    ensures Aligned(a + b)
    ensures Crypt(f, o, t, a + b) == Crypt(f, o, t, a) + Crypt(f, o, DoubleTimes(o, t, n), b)
    decreases n
  {
    hide Crypt, XorBlock, Double;
    if n == 0 {
      CryptNil(f, o, t, b);
    } else {
      var x, rest := Cons(a);
      CryptResumes(f, o, Double(o, t), rest, b, n - 1);
      CryptCons(f, o, t, x, rest);
      CryptCons(f, o, t, x, rest + b);
      assert a + b == x + (rest + b);
    }
  }

  /** Starting from the tweak of block `32 * e` yields that slice of the whole. */
  lemma CryptSlice(f: Block -> Block, o: Order, t: Block, e: nat, data: seq<u8>)
    requires Aligned(data) && 512 * e <= |data|
    ensures Crypt(f, o, DoubleTimes(o, t, 32 * e), data[512 * e..]) == Crypt(f, o, t, data)[512 * e..]
  {
    var a, b := data[..512 * e], data[512 * e..];
    assert data == a + b;
    CryptResumes(f, o, t, a, b, 32 * e);
  }

  // ----- in numbers

  /** Doubling is multiplication by x in either order, and so is doubling again. */
  lemma DoubleIsMulX(t: Block)
    ensures BeVal(Double(BigEndian, t)) == MulX(BeVal(t)) && LeVal(Double(LittleEndian, t)) == MulX(LeVal(t))
  {
    DoubleBeIsMulX(t);
    DoubleLeIsMulX(t);
  }

  lemma {:induction false} DoubleTimesIsMulX(t: Block, n: nat)
    ensures BeVal(DoubleTimes(BigEndian, t, n)) == MulXTimes(BeVal(t), n)
    ensures LeVal(DoubleTimes(LittleEndian, t, n)) == MulXTimes(LeVal(t), n)
  {
    hide Double, MulX, LeVal, BeVal;
    if n > 0 {
      DoubleTimesIsMulX(t, n - 1);
      DoubleTimesLast(BigEndian, t, n - 1);
      DoubleTimesLast(LittleEndian, t, n - 1);
      DoubleIsMulX(DoubleTimes(BigEndian, t, n - 1));
      DoubleIsMulX(DoubleTimes(LittleEndian, t, n - 1));
    }
  }

  lemma XorBlockIsXor(a: Block, b: Block)
    ensures LeVal(XorBlock(a, b)) == Xor(LeVal(a), LeVal(b)) && BeVal(XorBlock(a, b)) == Xor(BeVal(a), BeVal(b))
  {
    LeValXor(a, b, XorBlock(a, b));
    LeValXor(Reverse(a), Reverse(b), Reverse(XorBlock(a, b)));
  }

  /** Block `x` whitened with the number `v`, enciphered and whitened again. */
  function BeCipher(f: Block -> Block, x: Block, v: nat): Block {
    BeBlock(Xor(BeVal(f(BeBlock(Xor(BeVal(x), v)))), v))
  }

  function LeCipher(f: Block -> Block, x: Block, v: nat): Block {
    LeBlock(Xor(LeVal(f(LeBlock(Xor(LeVal(x), v)))), v))
  }

  lemma CipherInNumbers(f: Block -> Block, x: Block, t: Block)
    ensures XorBlock(f(XorBlock(x, t)), t) == BeCipher(f, x, BeVal(t)) == LeCipher(f, x, LeVal(t))
  {
    hide XorBlock, Xor, LeVal, BeVal, LeBlock, BeBlock;
    var y := XorBlock(x, t);
    XorBlockIsXor(x, t);
    XorBlockIsXor(f(y), t);
    BeBlockVal(y);
    LeBlockVal(y);
    BeBlockVal(XorBlock(f(y), t));
    LeBlockVal(XorBlock(f(y), t));
  }

  /** Every block of `out` is that of `data` under a tweak that starts as the number `v` and
      is multiplied by x from block to block. */
  ghost predicate BeInNumbers(f: Block -> Block, v: nat, data: seq<u8>, out: seq<u8>) {
    |out| == |data| && Aligned(data) &&
    forall k | 0 <= k < |data| / 16 :: BlockAt(out, k) == BeCipher(f, BlockAt(data, k), MulXTimes(v, k))
  }

  ghost predicate LeInNumbers(f: Block -> Block, v: nat, data: seq<u8>, out: seq<u8>) {
    |out| == |data| && Aligned(data) &&
    forall k | 0 <= k < |data| / 16 :: BlockAt(out, k) == LeCipher(f, BlockAt(data, k), MulXTimes(v, k))
  }

  function BlockAt(data: seq<u8>, k: nat): Block
    requires k < |data| / 16
  {
    data[16 * k..16 * k + 16]
  }

  lemma CryptAt(f: Block -> Block, o: Order, t: Block, data: seq<u8>, k: nat)
    requires Aligned(data) && k < |data| / 16
    ensures var w := DoubleTimes(o, t, k);
      BlockAt(Crypt(f, o, t, data), k) == XorBlock(f(XorBlock(BlockAt(data, k), w)), w)
  {
    hide Crypt, XorBlock, Double;
    var a, x, b := data[..16 * k], BlockAt(data, k), data[16 * k + 16..];
    assert data == a + (x + b);
    CryptResumes(f, o, t, a, x + b, k);
    CryptCons(f, o, DoubleTimes(o, t, k), x, b);
  }

  lemma CryptInNumbers(f: Block -> Block, t: Block, data: seq<u8>)
    requires Aligned(data)
    ensures BeInNumbers(f, BeVal(t), data, Crypt(f, BigEndian, t, data))
    ensures LeInNumbers(f, LeVal(t), data, Crypt(f, LittleEndian, t, data))
  {
    hide Crypt, XorBlock, BlockAt, DoubleTimes, BeCipher, LeCipher, BeVal, LeVal, MulXTimes;
    forall k | 0 <= k < |data| / 16
      ensures BlockAt(Crypt(f, BigEndian, t, data), k) == BeCipher(f, BlockAt(data, k), MulXTimes(BeVal(t), k))
      ensures BlockAt(Crypt(f, LittleEndian, t, data), k) == LeCipher(f, BlockAt(data, k), MulXTimes(LeVal(t), k))
    {
      CryptAt(f, BigEndian, t, data, k);
      CryptAt(f, LittleEndian, t, data, k);
      DoubleTimesIsMulX(t, k);
      CipherInNumbers(f, BlockAt(data, k), DoubleTimes(BigEndian, t, k));
      CipherInNumbers(f, BlockAt(data, k), DoubleTimes(LittleEndian, t, k));
    }
  }

  // ----- sectors

  /** The first tweak of a sector, before encryption: its number, most significant byte
      first. */
  function SectorBlock(sec: nat): Block {
    Reverse(LeBytes(sec, 16))
  }

  /** Sector numbers wrap at 64 bits. */
  const SECTORS := 0x1_0000_0000_0000_0000

  /** The block spells the sector number, most significant byte first. */
  lemma SectorNumber(sec: nat)
    requires sec < 0x1_0000_0000_0000_0000
    ensures BeVal(SectorBlock(sec)) == sec && SectorBlock(sec) == BeBlock(sec)
  {
    Pow256Is(16);
    assert Pow2(64) == 0x1_0000_0000 * 0x1_0000_0000 by { Pow2Values(); Pow2Add(32, 32); }
    Pow2Mono(64, 128);
    BlockNumbers(sec);
  }
}
