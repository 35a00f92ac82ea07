/** The sector drivers of bdk/sec/se.c, on byte buffers, over an abstract AES engine. */
module XtsDrivers {
  import opened Bits
  import opened Gf128
  import opened GfMul
  import opened Xts

  /** The second buffer does not change under writes to the first before it is read. */
  predicate Compatible(dst: array<u8>, dOff: nat, src: array<u8>, sOff: nat, size: nat) {
    dst != src || dOff == sOff || dOff + size <= sOff || sOff + size <= dOff
  }

  /** Nothing but `size` bytes from `off` on differs. */
  ghost predicate OnlyBytes(a: seq<u8>, b: seq<u8>, off: nat, size: nat) {
    |a| == |b| && forall i | 0 <= i < |a| && (i < off || off + size <= i) :: a[i] == b[i]
  }

  /** `d[j] = s[j] ^ tweak[j]` for one block. */
  method XorInto(dst: array<u8>, dOff: nat, src: array<u8>, sOff: nat, tweak: array<u8>)
    requires dOff + 16 <= dst.Length && sOff + 16 <= src.Length && tweak.Length == 16
    requires tweak != dst && Compatible(dst, dOff, src, sOff, 16)
    modifies dst
    ensures dst[dOff..dOff + 16] == XorBlock(old(src[sOff..sOff + 16]), tweak[..])
    ensures OnlyBytes(old(dst[..]), dst[..], dOff, 16)
  {
    ghost var s0 := src[sOff..sOff + 16];
    for j := 0 to 16
      invariant forall k | 0 <= k < j :: dst[dOff + k] == Xor8(s0[k], tweak[k])
      invariant forall k | j <= k < 16 :: src[sOff + k] == s0[k]
      invariant OnlyBytes(old(dst[..]), dst[..], dOff, 16)
    {
      dst[dOff + j] := Xor8(src[sOff + j], tweak[j]);
    }
  }

  class Engine {
    const keys: seq<KeySlot>

    constructor (keys: seq<KeySlot>)
      requires |keys| == KEY_SLOTS
      ensures this.keys == keys
    {
      this.keys := keys;
    }

    /** `se_aes_crypt_ecb`, in place; the engine may report an error at any time. */
    method CryptEcb(ks: nat, enc: bool, buf: array<u8>, off: nat, size: nat) returns (ok: bool)
      requires ks < |keys| && off + size <= buf.Length && size % 16 == 0 && size > 0
      modifies buf
      ensures ok ==> buf[off..off + size] == Ecb(keys[ks].Direction(enc), old(buf[off..off + size]))
      ensures OnlyBytes(old(buf[..]), buf[..], off, size)
    {
      hide Ecb, Partway;
      ok := *;
      if !ok {
        return;
      }
      ghost var b0, f, data := buf[..], keys[ks].Direction(enc), buf[off..off + size];
      EcbNil(f);
      PartwayStart(b0, off, b0, off, size, data);
      var n := 0;
      while n < size
        invariant 0 <= n <= size && n % 16 == 0
        invariant Partway(b0, buf[..], off, buf[..], off, size, n, data, Ecb(f, data[..n]))
      {
        ghost var b := buf[..];
        PartwayNext(b0, b, off, b, off, size, n, data, Ecb(f, data[..n]));
        var block: Block := buf[off + n..off + n + 16];
        PutBlock(buf, off + n, keys[ks].Direction(enc)(block));
        EcbLast(f, data[..n], block);
        PartwayStep(true, b0, b, buf[..], off, b, buf[..], off, size, n, data, Ecb(f, data[..n]), f(block));
        n := n + 16;
      }
      PartwayEnd(b0, buf[..], off, buf[..], off, size, data, Ecb(f, data[..n]));
    }

    /** Lines 408 to 413: one block whitened, encrypted and whitened again. */
    method CryptBlock(ks: nat, enc: bool, dst: array<u8>, dOff: nat, src: array<u8>, sOff: nat, tweak: array<u8>)
      returns (ok: bool)
      requires ks < |keys| && dOff + 16 <= dst.Length && sOff + 16 <= src.Length && tweak.Length == 16
      requires tweak != dst && Compatible(dst, dOff, src, sOff, 16)
      modifies dst
      ensures var x: Block, t: Block := old(src[sOff..sOff + 16]), old(tweak[..]);
              ok ==> dst[dOff..dOff + 16] == XorBlock(keys[ks].Direction(enc)(XorBlock(x, t)), t)
      ensures OnlyBytes(old(dst[..]), dst[..], dOff, 16)
    {
      hide XorBlock;
      XorInto(dst, dOff, src, sOff, tweak);
      ghost var x: Block := dst[dOff..dOff + 16];
      ok := CryptEcb(ks, enc, dst, dOff, 16);
      if !ok {
        return;
      }
      EcbOne(keys[ks].Direction(enc), x);
      XorInto(dst, dOff, dst, dOff, tweak);
    }

    /** The first tweak: the encrypted sector number. */
    method FirstTweak(tweakKs: nat, sec: nat, tweak: array<u8>) returns (ok: bool)
      requires tweakKs < |keys| && tweak.Length == 16
      modifies tweak
      ensures ok ==> tweak[..] == keys[tweakKs].enc(SectorBlock(sec))
    {
      hide SectorBlock, Ecb;
      SetSector(tweak, sec);
      assert tweak[0..16] == tweak[..];
      EcbOne(keys[tweakKs].enc, tweak[..]);
      ok := CryptEcb(tweakKs, true, tweak, 0, 16);
      assert tweak[0..16] == tweak[..];
    }

    /** Lines 408 to 416: block `k` of `data`, the tweak being doubled `k` times; `d0` is the
        output before the first one. */
    method CryptNext(ks: nat, enc: bool, dst: array<u8>, dOff: nat, src: array<u8>, sOff: nat, tweak: array<u8>,
                     n: nat, ghost size: nat, ghost k: nat, ghost d0: seq<u8>, ghost data: seq<u8>, ghost t0: Block)
      returns (ok: bool)
      requires ks < |keys| && size % 16 == 0 && n == 16 * k < n + 16 <= size == |data|
      requires Aligned(data[..n]) && Aligned(data[..n + 16])
      requires dOff + size <= dst.Length && sOff + size <= src.Length
      requires tweak.Length == 16 && tweak != dst && tweak != src && Compatible(dst, dOff, src, sOff, size)
      requires tweak[..] == DoubleTimes(BigEndian, t0, k)
      requires Partway(d0, dst[..], dOff, src[..], sOff, size, n, data,
                       Crypt(keys[ks].Direction(enc), BigEndian, t0, data[..n]))
      modifies dst, tweak
      ensures OnlyBytes(d0, dst[..], dOff, size)
      ensures ok ==> tweak[..] == DoubleTimes(BigEndian, t0, k + 1)
      ensures ok ==> Partway(d0, dst[..], dOff, src[..], sOff, size, n + 16, data,
                             Crypt(keys[ks].Direction(enc), BigEndian, t0, data[..n + 16]))
    {
      hide Crypt, Partway, XorBlock, DoubleBe, OnlyBytes, DoubleTimes;
      ghost var f, d, s := keys[ks].Direction(enc), dst[..], src[..];
      ghost var done, x, t: Block := Crypt(f, BigEndian, t0, data[..n]), data[n..n + 16], tweak[..];
      PartwayNext(d0, d, dOff, s, sOff, size, n, data, done);
      ok := CryptBlock(ks, enc, dst, dOff + n, src, sOff + n, tweak);
      PartwayKept(d0, d, dst[..], dOff, s, sOff, size, n, data, done);
      if ok {
        ghost var out := XorBlock(f(XorBlock(x, t)), t);
        PartwayStep(dst == src, d0, d, dst[..], dOff, s, src[..], sOff, size, n, data, done, out);
        CryptLast(f, BigEndian, t0, data[..n], k, x);
        DoubleTimesLast(BigEndian, t0, k);
        MulXBe(tweak);
      }
    }

    /** Lines 406 to 417: block after block. */
    method CryptBlocks(ks: nat, enc: bool, dst: array<u8>, dOff: nat, src: array<u8>, sOff: nat, size: nat,
                       tweak: array<u8>) returns (ok: bool)
      requires ks < |keys| && size % 16 == 0 && dOff + size <= dst.Length && sOff + size <= src.Length
      requires tweak.Length == 16 && tweak != dst && tweak != src && Compatible(dst, dOff, src, sOff, size)
      modifies dst, tweak
      ensures var t0: Block := old(tweak[..]); ok ==>
        dst[dOff..dOff + size] == Crypt(keys[ks].Direction(enc), BigEndian, t0, old(src[sOff..sOff + size]))
      ensures OnlyBytes(old(dst[..]), dst[..], dOff, size)
    {
      hide Crypt, Partway, OnlyBytes, DoubleTimes, Compatible;
      ghost var d0, f, data := dst[..], keys[ks].Direction(enc), src[sOff..sOff + size];
      ghost var t0: Block, k := tweak[..], 0;
      CryptNil(f, BigEndian, t0, []);
      NoDoubling(BigEndian, t0);
      PartwayStart(d0, dOff, src[..], sOff, size, data);
      var n := 0;
      while n < size
        invariant 0 <= n <= size && n == 16 * k
        invariant tweak[..] == DoubleTimes(BigEndian, t0, k)
        invariant Partway(d0, dst[..], dOff, src[..], sOff, size, n, data, Crypt(f, BigEndian, t0, data[..n]))
      {
        BlockRoom(data, n, k, size);
        ok := CryptNext(ks, enc, dst, dOff, src, sOff, tweak, n, size, k, d0, data, t0);
        if !ok {
          return;
        }
        n, k := n + 16, k + 1;
      }
      PartwayEnd(d0, dst[..], dOff, src[..], sOff, size, data, Crypt(f, BigEndian, t0, data[..n]));
      ok := true;
    }

    /** `se_aes_xts_crypt_sec` */
    method XtsCryptSec(tweakKs: nat, cryptKs: nat, enc: bool, sec: nat,
                       dst: array<u8>, dOff: nat, src: array<u8>, sOff: nat, secsize: nat) returns (ok: bool)
      requires tweakKs < |keys| && cryptKs < |keys| && secsize % 16 == 0
      requires dOff + secsize <= dst.Length && sOff + secsize <= src.Length
      requires Compatible(dst, dOff, src, sOff, secsize)
      modifies dst
      ensures var f, t0 := keys[cryptKs].Direction(enc), keys[tweakKs].enc(SectorBlock(sec)); ok ==>
        dst[dOff..dOff + secsize] == Crypt(f, BigEndian, t0, old(src[sOff..sOff + secsize]))
      ensures var f := if enc then keys[cryptKs].enc else keys[cryptKs].dec;
        var v := BeVal(keys[tweakKs].enc(BeBlock(sec))); ok && sec < 0x1_0000_0000_0000_0000 ==>
        BeInNumbers(f, v, old(src[sOff..sOff + secsize]), dst[dOff..dOff + secsize])
      ensures OnlyBytes(old(dst[..]), dst[..], dOff, secsize)
    {
      hide Crypt, SectorBlock, BeBlock, BeVal, BeInNumbers, LeInNumbers;
      CryptInNumbers(keys[cryptKs].Direction(enc), keys[tweakKs].enc(SectorBlock(sec)), src[sOff..sOff + secsize]);
      if sec < 0x1_0000_0000_0000_0000 { SectorNumber(sec); }
      var tweak := new u8[16];
      ok := FirstTweak(tweakKs, sec, tweak);
      if !ok {
        return;
      }
      ok := CryptBlocks(cryptKs, enc, dst, dOff, src, sOff, secsize, tweak);
    }

    /** `se_aes_xts_crypt_sec_nx`: `tweak` belongs to the caller, who may have it made from
        the sector number, moved on by `tweakExp` times 32 blocks, or left as it was. */
    method XtsCryptSecNx(tweakKs: nat, cryptKs: nat, enc: bool, sec: nat, tweak: array<u8>, regen: bool, tweakExp: u32,
                         dst: array<u8>, dOff: nat, src: array<u8>, sOff: nat, secSize: nat, ghost n: nat)
      returns (ok: bool)
      requires tweakKs < |keys| && cryptKs < |keys| && secSize == 16 * n && n > 0
      requires dOff + secSize <= dst.Length && sOff + secSize <= src.Length
      requires tweak.Length == 16 && tweak != dst && tweak != src && Compatible(dst, dOff, src, sOff, secSize)
      modifies dst, tweak
      ensures var f := keys[cryptKs].Direction(enc);
        var t0: Block := if regen then keys[tweakKs].enc(SectorBlock(sec)) else old(tweak[..]);
        var t := DoubleTimes(LittleEndian, t0, Shift5(tweakExp)); ok ==>
        dst[dOff..dOff + secSize] == Crypt(f, LittleEndian, t, old(src[sOff..sOff + secSize])) &&
        tweak[..] == DoubleTimes(LittleEndian, t, n)
      ensures var f := if enc then keys[cryptKs].enc else keys[cryptKs].dec;
        var t0: Block := if regen then keys[tweakKs].enc(BeBlock(sec)) else old(tweak[..]);
        ok && sec < 0x1_0000_0000_0000_0000 && tweakExp < 0x800_0000 ==>
        NxInNumbers(f, LeVal(t0), tweakExp, n, old(src[sOff..sOff + secSize]), dst[dOff..dOff + secSize], tweak[..])
      ensures OnlyBytes(old(dst[..]), dst[..], dOff, secSize)
    {
      hide Crypt, Whiten, Ecb, SectorBlock, BeBlock, DoubleTimes, OnlyBytes, LeVal, NxInNumbers, Shift5;
      ghost var start: Block := if regen then keys[tweakKs].enc(SectorBlock(sec)) else tweak[..];
      if sec < 0x1_0000_0000_0000_0000 { SectorNumber(sec); }
      ok := true;
      if regen {
        ok := FirstTweak(tweakKs, sec, tweak);
        if !ok {
          SameBytes(dst[..], dOff, secSize);
          return;
        }
      }
      Redouble(tweak, Shift5(tweakExp));
      var orig := new u8[16];
      Copy(orig, tweak);
      ghost var d0, f, t: Block, data := dst[..], keys[cryptKs].Direction(enc), tweak[..], src[sOff..sOff + secSize];
      WhitenBlocks(dst, dOff, src, sOff, secSize, tweak, n);
      ghost var d1 := dst[..];
      ok := CryptEcb(cryptKs, enc, dst, dOff, secSize);
      OnlyBytesJoin(d0, d1, dst[..], dOff, secSize);
      if !ok {
        return;
      }
      ghost var d2 := dst[..];
      WhitenBlocks(dst, dOff, dst, dOff, secSize, orig, n);
      OnlyBytesJoin(d0, d2, dst[..], dOff, secSize);
      ThreePasses(f, LittleEndian, t, data);
      if tweakExp < 0x800_0000 { NxNumbers(f, start, tweakExp, n, data); }
    }

    /** Two calls, the second going on with the tweak that the first left, do what one call
        on all the data does. */
    method CryptInTwo(tweakKs: nat, cryptKs: nat, enc: bool, sec: nat, tweak: array<u8>, regen: bool, tweakExp: u32,
                      dst: array<u8>, src: array<u8>, ghost m: nat, ghost n: nat, first: nat, second: nat)
      returns (ok: bool)
      requires tweakKs < |keys| && cryptKs < |keys| && first == 16 * m && m > 0 && second == 16 * n && n > 0
      requires first + second <= dst.Length && first + second <= src.Length
      requires tweak.Length == 16 && tweak != dst && tweak != src
      modifies dst, tweak
      ensures var f := keys[cryptKs].Direction(enc);
        var t0: Block := if regen then keys[tweakKs].enc(SectorBlock(sec)) else old(tweak[..]);
        var t := DoubleTimes(LittleEndian, t0, Shift5(tweakExp)); ok ==>
        dst[..first + second] == Crypt(f, LittleEndian, t, old(src[..first + second])) &&
        tweak[..] == DoubleTimes(LittleEndian, t, m + n)
      ensures OnlyBytes(old(dst[..]), dst[..], 0, first + second)
    {
      hide Crypt, SectorBlock, DoubleTimes, Shift5, Aligned;
      ghost var a, b, f := src[..first], src[first..first + second], keys[cryptKs].Direction(enc);
      TwoParts(a, b, m, n);
      assert Shift5(0) == 0 by { NoShift(); }
      assert a == src[0..0 + first] && src[..first + second] == a + b;
      ok := XtsCryptSecNx(tweakKs, cryptKs, enc, sec, tweak, regen, tweakExp, dst, 0, src, 0, first, m);
      if !ok {
        return;
      }
      ghost var d: seq<u8>, t1: Block := dst[..], tweak[..];
      assert src[first..first + second] == b;
      ok := XtsCryptSecNx(tweakKs, cryptKs, enc, sec, tweak, false, 0, dst, first, src, first, second, n);
      if !ok {
        return;
      }
      assert DoubleTimes(LittleEndian, t1, 0) == t1 by { NoDoubling(LittleEndian, t1); }
      assert dst[..first + second] == d[0..0 + first] + dst[first..first + second];
      ghost var t0: Block := if regen then keys[tweakKs].enc(SectorBlock(sec)) else old(tweak[..]);
      ghost var t := DoubleTimes(LittleEndian, t0, Shift5(tweakExp));
      CryptResumes(f, LittleEndian, t, a, b, m);
      DoubleTimesAdd(LittleEndian, t, m, n);
    }

    /** With a new tweak moved on by `exp` times 32 blocks, the data from block `32 * exp`
        of a cluster on becomes what it becomes when the whole cluster is processed. */
    method CryptFrom(tweakKs: nat, cryptKs: nat, enc: bool, sec: nat, tweak: array<u8>, exp: u32,
                     dst: array<u8>, src: array<u8>, skipped: nat, size: nat, ghost n: nat) returns (ok: bool)
      requires tweakKs < |keys| && cryptKs < |keys| && size == 16 * n && n > 0
      requires exp < 0x800_0000 && skipped == 512 * exp
      requires skipped + size <= dst.Length && skipped + size <= src.Length
      requires tweak.Length == 16 && tweak != dst && tweak != src
      modifies dst, tweak
      ensures var f, t0 := keys[cryptKs].Direction(enc), keys[tweakKs].enc(SectorBlock(sec)); ok ==>
        dst[skipped..skipped + size] == Crypt(f, LittleEndian, t0, old(src[..skipped + size]))[skipped..]
      ensures OnlyBytes(old(dst[..]), dst[..], skipped, size)
    {
      hide Crypt, SectorBlock, DoubleTimes, OnlyBytes, Shift5, Aligned;
      WholeBlocks(exp, n, src[..skipped + size]);
      ghost var f, t0 := keys[cryptKs].Direction(enc), keys[tweakKs].enc(SectorBlock(sec));
      ghost var whole := src[..skipped + size];
      assert whole[skipped..] == src[skipped..skipped + size];
      ok := XtsCryptSecNx(tweakKs, cryptKs, enc, sec, tweak, true, exp, dst, skipped, src, skipped, size, n);
      CryptSlice(f, LittleEndian, t0, exp, whole);
    }

    /** One iteration of `se_aes_xts_crypt`; `d0` and `s0` are the data before the first. */
    method CryptSector(tweakKs: nat, cryptKs: nat, enc: bool, sec: nat, dst: array<u8>, src: array<u8>, secsize: nat,
                       i: nat, ghost numSecs: nat, ghost d0: seq<u8>, ghost s0: seq<u8>) returns (ok: bool)
      requires tweakKs < |keys| && cryptKs < |keys| && secsize % 16 == 0 && i < numSecs
      requires secsize * numSecs <= dst.Length && secsize * numSecs <= src.Length
      requires OnlyBytes(d0, dst[..], 0, secsize * i) && if src == dst then s0 == d0 else s0 == src[..]
      requires SectorsDone(keys[tweakKs].enc, keys[cryptKs].Direction(enc), sec, secsize, s0, dst[..], i)
      modifies dst
      ensures OnlyBytes(d0, dst[..], 0, secsize * numSecs)
      ensures ok ==> OnlyBytes(d0, dst[..], 0, secsize * (i + 1))
      ensures ok ==> SectorsDone(keys[tweakKs].enc, keys[cryptKs].Direction(enc), sec, secsize, s0, dst[..], i + 1)
    {
      hide SectorDone, SectorsDone, OnlyBytes, Crypt, SectorBlock, BeInNumbers;
      ghost var t, f := keys[tweakKs].enc, keys[cryptKs].Direction(enc);
      ghost var d, s, at := dst[..], src[..], secsize * i;
      SectorPlaces(secsize, i, numSecs);
      SameLength(d0, d, secsize * i);
      SectorRead(dst == src, d0, d, s0, s, at, secsize);
      ok := XtsCryptSec(tweakKs, cryptKs, enc, (sec + i) % SECTORS, dst, secsize * i, src, secsize * i, secsize);
      OnlyBytesGrow(d0, d, dst[..], at, secsize, secsize * numSecs);
      if ok { SectorWritten(t, f, sec, secsize, s0, d, dst[..], i, at); }
    }

    /** `se_aes_xts_crypt` */
    method XtsCrypt(tweakKs: nat, cryptKs: nat, enc: bool, sec: nat,
                    dst: array<u8>, src: array<u8>, secsize: nat, numSecs: nat) returns (ok: bool)
      requires tweakKs < |keys| && cryptKs < |keys| && secsize % 16 == 0
      requires secsize * numSecs <= dst.Length && secsize * numSecs <= src.Length
      modifies dst
      ensures var t, f := keys[tweakKs].enc, keys[cryptKs].Direction(enc);
        ok ==> SectorsDone(t, f, sec, secsize, old(src[..]), dst[..], numSecs)
      ensures var t, f := keys[tweakKs].enc, if enc then keys[cryptKs].enc else keys[cryptKs].dec;
        ok ==> forall i | 0 <= i < numSecs :: SectorInNumbers(t, f, sec, secsize, old(src[..]), dst[..], i)
      ensures OnlyBytes(old(dst[..]), dst[..], 0, secsize * numSecs)
    {
      hide SectorDone, SectorsDone, OnlyBytes, Crypt, SectorBlock, SectorInNumbers, BeInNumbers;
      ghost var d0, s0 := dst[..], src[..];
      ghost var t, f := keys[tweakKs].enc, keys[cryptKs].Direction(enc);
      ok := true;
      SameBytes(d0, 0, secsize * 0);
      NoSectors(t, f, sec, secsize, s0, d0);
      for i := 0 to numSecs
        invariant OnlyBytes(d0, dst[..], 0, secsize * i) && SectorsDone(t, f, sec, secsize, s0, dst[..], i)
      {
        ok := CryptSector(tweakKs, cryptKs, enc, sec, dst, src, secsize, i, numSecs, d0, s0);
        if !ok {
          return;
        }
      }
      AllInNumbers(t, f, sec, secsize, s0, dst[..], numSecs);
    }

    /** Encrypting and then decrypting in place leaves what was there to be encrypted. */
    method ThereAndBack(tweakKs: nat, cryptKs: nat, sec: nat,
                        dst: array<u8>, src: array<u8>, secsize: nat, numSecs: nat) returns (ok: bool)
      requires tweakKs < |keys| && cryptKs < |keys| && secsize % 16 == 0
      requires secsize * numSecs <= dst.Length && secsize * numSecs <= src.Length
      modifies dst
      ensures ok && IsCipher(keys[cryptKs]) ==> dst[..secsize * numSecs] == old(src[..secsize * numSecs])
    {
      hide SectorsDone, SectorInNumbers, OnlyBytes, IsCipher;
      ghost var t, k, s := keys[tweakKs].enc, keys[cryptKs], src[..];
      ok := XtsCrypt(tweakKs, cryptKs, true, sec, dst, src, secsize, numSecs);
      if !ok {
        return;
      }
      ghost var d := dst[..];
      ok := XtsCrypt(tweakKs, cryptKs, false, sec, dst, dst, secsize, numSecs);
      if ok && IsCipher(k) { SectorsRoundTrip(t, k, sec, secsize, s, d, dst[..], numSecs); }
    }
  }

  ghost predicate SectorDone(tweak: Block -> Block, f: Block -> Block, sec: nat, size: nat,
                             s0: seq<u8>, d: seq<u8>, i: nat)
  {
    size % 16 == 0 && size * i + size <= |s0| && size * i + size <= |d| &&
    d[size * i..size * i + size] ==
      Crypt(f, BigEndian, tweak(SectorBlock((sec + i) % SECTORS)), s0[size * i..size * i + size])
  }

  method PutBlock(buf: array<u8>, off: nat, b: Block)
    requires off + 16 <= buf.Length
    modifies buf
    ensures buf[..] == old(buf[..off]) + b + old(buf[off + 16..])
  {
    ghost var old_ := buf[..];
    for j := 0 to 16
      invariant buf[..] == old_[..off] + b[..j] + old_[off + j..]
    {
      buf[off + j] := b[j];
    }
    assert b[..16] == b;
  }

  lemma {:induction false} EcbLast(f: Block -> Block, a: seq<u8>, x: Block)
    requires Aligned(a)
    ensures Aligned(a + x) && Ecb(f, a + x) == Ecb(f, a) + f(x)
    decreases |a|
  {
    if a == [] {
      assert a + x == x + [];
      EcbCons(f, x, []);
    } else {
      var y, rest := Cons(a);
      EcbLast(f, rest, x);
      EcbCons(f, y, rest);
      EcbCons(f, y, rest + x);
      assert a + x == y + (rest + x);
    }
  }

  /** The tweak of sector `sec` before encryption. */
  method SetSector(tweak: array<u8>, sec: nat)
    requires tweak.Length == 16
    modifies tweak
    ensures tweak[..] == SectorBlock(sec)
  {
    ghost var want := SectorBlock(sec);
    var rest := sec;
    var i := 0xF;
    while i >= 0
      invariant -1 <= i <= 0xF
      invariant Reverse(LeBytes(rest, i + 1)) == want[..i + 1]
      invariant forall j | i < j < 16 :: tweak[j] == want[j]
    {
      assert LeBytes(rest, i + 1)[0] == rest % 256;
      ReverseHead(rest % 256, LeBytes(rest / 256, i));
      assert want[..i + 1][..i] == want[..i];
      tweak[i] := rest % 256;
      rest := rest / 256;
      i := i - 1;
    }
  }

  lemma ReverseHead(b: u8, rest: seq<u8>)
    ensures Reverse([b] + rest) == Reverse(rest) + [b]
  {
  }

  lemma EcbOne(f: Block -> Block, x: Block)
    ensures Ecb(f, x) == f(x)
  {
    assert x[..16] == x && x[16..] == [];
  }

  /** The next block is encrypted with the tweak doubled once more. */
  lemma CryptLast(f: Block -> Block, o: Order, t: Block, a: seq<u8>, k: nat, x: Block)
    requires |a| == 16 * k
    ensures Aligned(a + x)
    ensures var t' := DoubleTimes(o, t, k);
      Crypt(f, o, t, a + x) == Crypt(f, o, t, a) + XorBlock(f(XorBlock(x, t')), t')
  {
    hide Crypt, XorBlock, Double;
    var t' := DoubleTimes(o, t, k);
    CryptResumes(f, o, t, a, x, k);
    assert x + [] == x;
    CryptCons(f, o, t', x, []);
    CryptNil(f, o, Double(o, t'), []);
  }


  // ----- a buffer partway through

  /** `n` of `size` bytes of the output at `dOff` are `done`; the rest of the input at `sOff`
      is still that of `data`; nothing outside the output differs from `d0`. */
  ghost predicate Partway(d0: seq<u8>, d: seq<u8>, dOff: nat, s: seq<u8>, sOff: nat, size: nat, n: nat,
                          data: seq<u8>, done: seq<u8>) {
    OnlyBytes(d0, d, dOff, size) && dOff + size <= |d| && sOff + size <= |s| && n <= size == |data| &&
    d[dOff..dOff + n] == done && s[sOff + n..sOff + size] == data[n..]
  }

  lemma BlockRoom(data: seq<u8>, n: nat, k: nat, size: nat)
    requires n == 16 * k < size == |data| && size % 16 == 0
    ensures n + 16 <= size && Aligned(data[..n]) && Aligned(data[..n + 16])
  {
    assert n + 16 == 16 * (k + 1);
  }

  lemma PartwayStart(d: seq<u8>, dOff: nat, s: seq<u8>, sOff: nat, size: nat, data: seq<u8>)
    requires dOff + size <= |d| && sOff + size <= |s| && data == s[sOff..sOff + size]
    ensures Partway(d, d, dOff, s, sOff, size, 0, data, []) && data[..0] == []
  {
  }

  lemma PartwayNext(d0: seq<u8>, d: seq<u8>, dOff: nat, s: seq<u8>, sOff: nat, size: nat, n: nat,
                    data: seq<u8>, done: seq<u8>)
    requires Partway(d0, d, dOff, s, sOff, size, n, data, done) && n < size && n % 16 == 0 == size % 16
    ensures n + 16 <= size == |data| && s[sOff + n..sOff + n + 16] == data[n..n + 16]
    ensures data[..n + 16] == data[..n] + data[n..n + 16]
  {
    assert s[sOff + n..sOff + n + 16] == s[sOff + n..sOff + size][..16];
  }

  lemma PartwayKept(d0: seq<u8>, d: seq<u8>, d': seq<u8>, dOff: nat, s: seq<u8>, sOff: nat, size: nat, n: nat,
                    data: seq<u8>, done: seq<u8>)
    requires Partway(d0, d, dOff, s, sOff, size, n, data, done) && n + 16 <= size && OnlyBytes(d, d', dOff + n, 16)
    ensures OnlyBytes(d0, d', dOff, size)
  {
  }

  lemma PartwayStep(same: bool, d0: seq<u8>, d: seq<u8>, d': seq<u8>, dOff: nat, s: seq<u8>, s': seq<u8>, sOff: nat,
                    size: nat, n: nat, data: seq<u8>, done: seq<u8>, out: Block)
    requires Partway(d0, d, dOff, s, sOff, size, n, data, done) && n + 16 <= size
    requires OnlyBytes(d, d', dOff + n, 16) && d'[dOff + n..dOff + n + 16] == out
    requires if same then s == d && s' == d' else s' == s
    requires same ==> dOff == sOff || dOff + size <= sOff || sOff + size <= dOff
    ensures Partway(d0, d', dOff, s', sOff, size, n + 16, data, done + out)
  {
    assert s'[sOff + n + 16..sOff + size] == s[sOff + n..sOff + size][16..];
    assert d'[dOff..dOff + n + 16] == d[dOff..dOff + n] + d'[dOff + n..dOff + n + 16];
  }

  lemma PartwayEnd(d0: seq<u8>, d: seq<u8>, dOff: nat, s: seq<u8>, sOff: nat, size: nat, data: seq<u8>, done: seq<u8>)
    requires Partway(d0, d, dOff, s, sOff, size, size, data, done)
    ensures d[dOff..dOff + size] == done && data[..size] == data && OnlyBytes(d0, d, dOff, size)
  {
  }

  lemma OnlyBytesJoin(a: seq<u8>, b: seq<u8>, c: seq<u8>, off: nat, size: nat)
    requires OnlyBytes(a, b, off, size) && OnlyBytes(b, c, off, size)
    ensures OnlyBytes(a, c, off, size)
  {
  }

  lemma SameBytes(a: seq<u8>, off: nat, size: nat)
    ensures OnlyBytes(a, a, off, size)
  {
  }

  lemma EcbNil(f: Block -> Block)
    ensures Ecb(f, []) == []
  {
  }

  // ----- the passes of se_aes_xts_crypt_sec_nx

  /** `tweak_exp << 5` in 32 bits. */
  function Shift5(e: u32): u32 {
    e * 32 % 0x1_0000_0000
  }

  lemma WholeBlocks(exp: u32, n: nat, data: seq<u8>)
    requires exp < 0x800_0000 && |data| == 512 * exp + 16 * n
    ensures Aligned(data) && Shift5(exp) == 32 * exp
  {
    assert |data| == 16 * (32 * exp + n);
  }

  method Redouble(tweak: array<u8>, n: nat)
    requires tweak.Length == 16
    modifies tweak
    ensures var t: Block := old(tweak[..]); tweak[..] == DoubleTimes(LittleEndian, t, n)
  {
    hide DoubleLe;
    ghost var t: Block := tweak[..];
    for i := 0 to n
      invariant tweak[..] == DoubleTimes(LittleEndian, t, i)
    {
      DoubleTimesLast(LittleEndian, t, i);
      MulXLe(tweak);
    }
  }

  method Copy(dst: array<u8>, src: array<u8>)
    requires dst.Length == src.Length && dst != src
    modifies dst
    ensures dst[..] == src[..]
  {
    for j := 0 to src.Length
      invariant forall k | 0 <= k < j :: dst[k] == src[k]
    {
      dst[j] := src[j];
    }
  }

  lemma NoShift()
    ensures Shift5(0) == 0
  {
  }

  lemma TwoParts(a: seq<u8>, b: seq<u8>, m: nat, n: nat)
    requires |a| == 16 * m && |b| == 16 * n
    ensures Aligned(a) && Aligned(b) && Aligned(a + b)
  {
    assert |a + b| == 16 * (m + n);
  }

  lemma NoDoubling(o: Order, t: Block)
    ensures DoubleTimes(o, t, 0) == t
  {
  }

  lemma WhitenNil(o: Order, t: Block)
    ensures Whiten(o, t, []) == []
  {
  }

  /** The next block is whitened with the tweak doubled once more. */
  lemma {:induction false} WhitenLast(o: Order, t: Block, a: seq<u8>, k: nat, x: Block)
    requires |a| == 16 * k
    ensures Aligned(a + x)
    ensures Whiten(o, t, a + x) == Whiten(o, t, a) + XorBlock(x, DoubleTimes(o, t, k))
    decreases k
  {
    hide XorBlock, Double;
    if k == 0 {
      assert a + x == x + [] && [] + XorBlock(x, t) == XorBlock(x, t) + [] == XorBlock(x, t);
      WhitenCons(o, t, x, []);
    } else {
      var y, rest := Cons(a);
      WhitenLast(o, Double(o, t), rest, k - 1, x);
      WhitenCons(o, t, y, rest);
      WhitenCons(o, t, y, rest + x);
      assert a + x == y + (rest + x);
    }
  }

  /** Block `k` of `data` in a pass of exclusive or, the tweak being doubled `k` times. */
  method WhitenNext(dst: array<u8>, dOff: nat, src: array<u8>, sOff: nat, tweak: array<u8>, i: nat,
                    ghost size: nat, ghost k: nat, ghost d0: seq<u8>, ghost data: seq<u8>, ghost t: Block)
    requires size % 16 == 0 && i == 16 * k < i + 16 <= size == |data|
    requires Aligned(data[..i]) && Aligned(data[..i + 16])
    requires dOff + size <= dst.Length && sOff + size <= src.Length
    requires tweak.Length == 16 && tweak != dst && tweak != src && Compatible(dst, dOff, src, sOff, size)
    requires tweak[..] == DoubleTimes(LittleEndian, t, k)
    requires Partway(d0, dst[..], dOff, src[..], sOff, size, i, data, Whiten(LittleEndian, t, data[..i]))
    modifies dst, tweak
    ensures tweak[..] == DoubleTimes(LittleEndian, t, k + 1)
    ensures Partway(d0, dst[..], dOff, src[..], sOff, size, i + 16, data, Whiten(LittleEndian, t, data[..i + 16]))
  {
    hide Whiten, Partway, XorBlock, DoubleLe, OnlyBytes, DoubleTimes;
    ghost var done, x, w: Block := Whiten(LittleEndian, t, data[..i]), data[i..i + 16], tweak[..];
    ghost var d, s := dst[..], src[..];
    PartwayNext(d0, d, dOff, s, sOff, size, i, data, done);
    XorInto(dst, dOff + i, src, sOff + i, tweak);
    PartwayStep(dst == src, d0, d, dst[..], dOff, s, src[..], sOff, size, i, data, done, XorBlock(x, w));
    WhitenLast(LittleEndian, t, data[..i], k, x);
    DoubleTimesLast(LittleEndian, t, k);
    MulXLe(tweak);
  }

  /** One pass of exclusive or; `tweak` ends `n` doublings further on. */
  method WhitenBlocks(dst: array<u8>, dOff: nat, src: array<u8>, sOff: nat, size: nat, tweak: array<u8>, ghost n: nat)
    requires size == 16 * n && dOff + size <= dst.Length && sOff + size <= src.Length
    requires tweak.Length == 16 && tweak != dst && tweak != src && Compatible(dst, dOff, src, sOff, size)
    modifies dst, tweak
    ensures var t: Block := old(tweak[..]);
      dst[dOff..dOff + size] == Whiten(LittleEndian, t, old(src[sOff..sOff + size])) &&
      tweak[..] == DoubleTimes(LittleEndian, t, n)
    ensures OnlyBytes(old(dst[..]), dst[..], dOff, size)
  {
    hide Whiten, Partway, OnlyBytes, DoubleTimes, Compatible;
    ghost var d0, data := dst[..], src[sOff..sOff + size];
    ghost var t: Block, k := tweak[..], 0;
    WhitenNil(LittleEndian, t);
    NoDoubling(LittleEndian, t);
    PartwayStart(d0, dOff, src[..], sOff, size, data);
    var i := 0;
    while i < size
      invariant 0 <= i <= size && i == 16 * k
      invariant tweak[..] == DoubleTimes(LittleEndian, t, k)
      invariant Partway(d0, dst[..], dOff, src[..], sOff, size, i, data, Whiten(LittleEndian, t, data[..i]))
    {
      BlockRoom(data, i, k, size);
      WhitenNext(dst, dOff, src, sOff, tweak, i, size, k, d0, data, t);
      i, k := i + 16, k + 1;
    }
    PartwayEnd(d0, dst[..], dOff, src[..], sOff, size, data, Whiten(LittleEndian, t, data[..i]));
  }

  // ----- sector after sector

  lemma SectorPlaces(size: nat, i: nat, n: nat)
    requires i < n
    ensures size * i + size == size * (i + 1) <= size * n
  {
  }

  lemma OnlyBytesGrow(d0: seq<u8>, d: seq<u8>, d': seq<u8>, a: nat, size: nat, all: nat)
    requires OnlyBytes(d0, d, 0, a) && OnlyBytes(d, d', a, size) && a + size <= all
    ensures OnlyBytes(d0, d', 0, a + size) && OnlyBytes(d0, d', 0, all)
  {
  }

  /** Sector `i` in numbers; its own number counts modulo 2^64. */
  ghost predicate SectorInNumbers(tweak: Block -> Block, f: Block -> Block, sec: nat, size: nat,
                                  s: seq<u8>, d: seq<u8>, i: nat)
  {
    size * i + size <= |s| && size * i + size <= |d| &&
    BeInNumbers(f, BeVal(tweak(BeBlock((sec + i) % 0x1_0000_0000_0000_0000))),
                s[size * i..size * i + size], d[size * i..size * i + size])
  }

  lemma AllInNumbers(tweak: Block -> Block, f: Block -> Block, sec: nat, size: nat, s: seq<u8>, d: seq<u8>, n: nat)
    requires SectorsDone(tweak, f, sec, size, s, d, n)
    ensures forall i | 0 <= i < n :: SectorInNumbers(tweak, f, sec, size, s, d, i)
  {
    hide SectorDone, SectorInNumbers;
    forall i | 0 <= i < n ensures SectorInNumbers(tweak, f, sec, size, s, d, i) {
      assert SectorDone(tweak, f, sec, size, s, d, i);
      DoneInNumbers(tweak, f, sec, size, s, d, i);
    }
  }

  lemma DoneInNumbers(tweak: Block -> Block, f: Block -> Block, sec: nat, size: nat, s: seq<u8>, d: seq<u8>, i: nat)
    requires SectorDone(tweak, f, sec, size, s, d, i)
    ensures SectorInNumbers(tweak, f, sec, size, s, d, i)
  {
    hide Crypt, SectorBlock, BeBlock, BeVal, BeInNumbers, LeInNumbers;
    var n := (sec + i) % SECTORS;
    SectorNumber(n);
    CryptInNumbers(f, tweak(SectorBlock(n)), s[size * i..size * i + size]);
  }

  /** A call of `se_aes_xts_crypt_sec_nx` in numbers: `v` is the tweak before it is moved on;
      it is left `n` blocks further on. */
  ghost predicate NxInNumbers(f: Block -> Block, v: nat, exp: nat, n: nat,
                              data: seq<u8>, out: seq<u8>, tweak: seq<u8>)
  {
    LeInNumbers(f, MulXTimes(v, 32 * exp), data, out) && LeVal(tweak) == MulXTimes(v, 32 * exp + n)
  }

  lemma NxNumbers(f: Block -> Block, t0: Block, exp: u32, n: nat, data: seq<u8>)
    requires exp < 0x800_0000 && Aligned(data)
    ensures var t := DoubleTimes(LittleEndian, t0, Shift5(exp));
      NxInNumbers(f, LeVal(t0), exp, n, data, Crypt(f, LittleEndian, t, data), DoubleTimes(LittleEndian, t, n))
  {
    hide Crypt, DoubleTimes, LeVal, BeVal, LeInNumbers, BeInNumbers;
    assert Shift5(exp) == 32 * exp;
    var t := DoubleTimes(LittleEndian, t0, 32 * exp);
    CryptInNumbers(f, t, data);
    DoubleTimesIsMulX(t0, 32 * exp);
    DoubleTimesAdd(LittleEndian, t0, 32 * exp, n);
    DoubleTimesIsMulX(t0, 32 * exp + n);
  }

  /** Every sector of `s` was carried over to `d`. */
  ghost predicate SectorsDone(tweak: Block -> Block, f: Block -> Block, sec: nat, size: nat,
                              s: seq<u8>, d: seq<u8>, n: nat)
  {
    forall i | 0 <= i < n :: SectorDone(tweak, f, sec, size, s, d, i)
  }

  /** Decrypting what was encrypted, with the same keys, sector number and sizes, restores
      every byte. */
  lemma SectorsRoundTrip(tweak: Block -> Block, k: KeySlot, sec: nat, size: nat,
                         s: seq<u8>, d: seq<u8>, e: seq<u8>, n: nat)
    requires IsCipher(k)
    requires SectorsDone(tweak, k.enc, sec, size, s, d, n) && SectorsDone(tweak, k.dec, sec, size, d, e, n)
    requires size * n <= |s| && size * n <= |e|
    ensures e[..size * n] == s[..size * n]
  {
    hide SectorDone;
    forall j | 0 <= j < size * n ensures e[j] == s[j] {
      var i := j / size;
      SectorOf(j, size, n, i);
      SectorBack(tweak, k, sec, size, s, d, e, i, size * i);
      assert e[j] == e[size * i..size * i + size][j - size * i];
    }
  }

  lemma SectorBack(tweak: Block -> Block, k: KeySlot, sec: nat, size: nat,
                   s: seq<u8>, d: seq<u8>, e: seq<u8>, i: nat, at: nat)
    requires IsCipher(k) && SectorDone(tweak, k.enc, sec, size, s, d, i) && SectorDone(tweak, k.dec, sec, size, d, e, i)
    requires at == size * i
    ensures at + size <= |s| && at + size <= |e| && e[at..at + size] == s[at..at + size]
  {
    hide Crypt, SectorBlock, IsCipher;
    CryptRoundTrip(k, BigEndian, tweak(SectorBlock((sec + i) % SECTORS)), s[at..at + size]);
  }

  lemma SectorOf(j: nat, size: nat, n: nat, i: nat)
    requires size > 0 && j < size * n && i == j / size
    ensures i < n && size * i <= j < size * i + size
  {
  }

  lemma SectorRead(same: bool, d0: seq<u8>, d: seq<u8>, s0: seq<u8>, s: seq<u8>, at: nat, size: nat)
    requires OnlyBytes(d0, d, 0, at) && at + size <= |s0| && |s| == |s0|
    requires if same then s == d && s0 == d0 else s == s0
    ensures s[at..at + size] == s0[at..at + size]
  {
  }

  lemma SectorWritten(t: Block -> Block, f: Block -> Block, sec: nat, size: nat, s0: seq<u8>, d: seq<u8>, d': seq<u8>,
                      i: nat, at: nat)
    requires size % 16 == 0 && at == size * i && at + size <= |s0| && at + size <= |d| == |d'|
    requires OnlyBytes(d, d', at, size)
    requires SectorsDone(t, f, sec, size, s0, d, i)
    requires d'[at..at + size] == Crypt(f, BigEndian, t(SectorBlock((sec + i) % SECTORS)), s0[at..at + size])
    ensures SectorsDone(t, f, sec, size, s0, d', i + 1)
  {
    hide SectorDone, OnlyBytes, Crypt, SectorBlock;
    forall j | 0 <= j < i + 1 ensures SectorDone(t, f, sec, size, s0, d', j) {
      if j < i {
        assert SectorDone(t, f, sec, size, s0, d, j);
        SectorPlaces(size, j, i);
        SectorKept(t, f, sec, size, s0, d, d', j, size * j, at);
      } else {
        SectorNow(t, f, sec, size, s0, d', i, at);
      }
    }
  }

  lemma SameLength(a: seq<u8>, b: seq<u8>, size: nat)
    requires OnlyBytes(a, b, 0, size)
    ensures |a| == |b|
  {
  }

  lemma NoSectors(t: Block -> Block, f: Block -> Block, sec: nat, size: nat, s0: seq<u8>, d: seq<u8>)
    ensures SectorsDone(t, f, sec, size, s0, d, 0)
  {
  }

  lemma SectorKept(t: Block -> Block, f: Block -> Block, sec: nat, size: nat, s0: seq<u8>, d: seq<u8>, d': seq<u8>,
                   j: nat, p: nat, at: nat)
    requires p == size * j && p + size <= at && OnlyBytes(d, d', at, size) && SectorDone(t, f, sec, size, s0, d, j)
    ensures SectorDone(t, f, sec, size, s0, d', j)
  {
    hide Crypt, SectorBlock;
    assert d'[p..p + size] == d[p..p + size];
  }

  lemma SectorNow(t: Block -> Block, f: Block -> Block, sec: nat, size: nat, s0: seq<u8>, d: seq<u8>, i: nat, at: nat)
    requires size % 16 == 0 && at == size * i && at + size <= |s0| && at + size <= |d|
    requires d[at..at + size] == Crypt(f, BigEndian, t(SectorBlock((sec + i) % SECTORS)), s0[at..at + size])
    ensures SectorDone(t, f, sec, size, s0, d, i)
  {
    hide Crypt, SectorBlock;
  }
}
