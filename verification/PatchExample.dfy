/** A chain that one flipped bit cuts short: the exception to fault tolerance is real. */
module PatchExample {
  import opened Bits
  import Code = PatchCode
  import Head = PatchHead
  import opened PatchChain

  /** One word naming a block of two, and that block with one patch. */
  const FIRST: u32 := 0x0550_0000
  const SECOND: u32 := 0x0001_C010

  function Sample(): (s: seq<u32>)
    ensures |s| == BUFFER_WORDS - 1
  {
    [FIRST, SECOND] + seq(BUFFER_WORDS - 3, _ => 0)
  }

  /** Bit 26 of word 0 flipped: the size field of the first block reads zero. */
  function Damaged(): (t: seq<u32>)
    ensures |t| == BUFFER_WORDS - 1
  {
    Sample()[0 := 0x0150_0000]
  }

  /** Setting a bit above all others. */
  lemma SetBit(w: nat, k: nat)
    requires w < Pow2(k)
    ensures Xor(w, Pow2(k)) == w + Pow2(k)
  {
    Code.XorAdd(1, w, k);
    XorComm(w, Pow2(k));
  }

  lemma Powers()
    ensures Pow2(4) == 0x10 && Pow2(14) == 0x4000 && Pow2(15) == 0x8000 && Pow2(16) == 0x1_0000
    ensures Pow2(20) == 0x10_0000 && Pow2(22) == 0x40_0000 && Pow2(24) == 0x100_0000 && Pow2(26) == 0x400_0000
  {
    Pow2Values();
    assert Pow2(22) == 4 * Pow2(20) && Pow2(24) == 4 * Pow2(22) && Pow2(26) == 4 * Pow2(24);
  }

  /** A flip in the first word. */
  lemma FlipWord(ws: seq<u32>, k: nat, w: u32)
    requires |ws| > 0 && k < 32 && ws[0] < Pow2(k) && w == ws[0] + Pow2(k)
    ensures Code.Flip(ws, k) == ws[0 := w] && Head.FlipBit(ws[0], k) == w
  {
    SetBit(ws[0], k);
  }

  // ----- the first block

  lemma FirstBlock()
    ensures Code.Codeword([FIRST]) && Head.Codeword(FIRST)
  {
    hide Code.Syndrome, Code.OddParity, Xor, Pow2, Head.Syn, Parity, Head.Upper;
    Powers();
    var z: seq<u32> := [0];
    var a: seq<u32>, b: seq<u32>, c: seq<u32> := [0x10_0000], [0x50_0000], [0x150_0000];
    Code.ZeroBlock(z);
    ZeroHead();
    FlipWord(z, 20, a[0]);
    FlipWord(a, 22, b[0]);
    FlipWord(b, 24, c[0]);
    FlipWord(c, 26, FIRST);
    assert z[0 := a[0]] == a && a[0 := b[0]] == b && b[0 := c[0]] == c && c[0 := FIRST] == [FIRST];
    Code.FlipEffect(z, 20);
    Code.FlipEffect(a, 22);
    Code.FlipEffect(b, 24);
    Code.FlipEffect(c, 26);
    XorUnit(0);
    Head.FlipEffect(0, 20);
    Head.FlipEffect(a[0], 22);
    Head.FlipEffect(b[0], 24);
    Head.FlipEffect(c[0], 26);
    HeadColumns();
  }

  lemma ZeroHead()
    ensures Head.Syn(0, 12) == 0 && !Parity(Head.Upper(0))
  {
    ZeroSyn(12);
  }

  lemma {:induction false} ZeroSyn(n: nat)
    requires n <= 12
    ensures Head.Syn(0, n) == 0
  {
    if n > 0 {
      ZeroSyn(n - 1);
      BitZero(20 + n - 1);
      XorUnit(0);
    }
  }

  /** The columns of bits 20, 22, 24 and 26 cancel. */
  lemma HeadColumns()
    ensures Xor(Xor(Xor(Xor(0, 1), 4), 0), 5) == 0
  {
    XorUnit(1);
    SetBit(1, 2);
    assert Pow2(2) == 4;
    XorUnit(5);
    XorSelf(5);
  }

  // ----- the second block

  lemma SecondBlock()
    ensures Code.Codeword([SECOND, 0]) && Head.Codeword(SECOND)
  {
    hide Code.Syndrome, Code.OddParity, Xor, Pow2, Head.Syn, Parity, Head.Upper;
    Powers();
    var z: seq<u32> := [0, 0];
    var a: seq<u32>, b: seq<u32>, c: seq<u32> := [0x10, 0], [0x4010, 0], [0xC010, 0];
    TwoZeros(z);
    ZeroHead();
    FlipWord(z, 4, a[0]);
    FlipWord(a, 14, b[0]);
    FlipWord(b, 15, c[0]);
    FlipWord(c, 16, SECOND);
    assert z[0 := a[0]] == a && a[0 := b[0]] == b && b[0 := c[0]] == c && c[0 := SECOND] == [SECOND, 0];
    Code.FlipEffect(z, 4);
    Code.FlipEffect(a, 14);
    Code.FlipEffect(b, 15);
    Code.FlipEffect(c, 16);
    Head.FlipEffect(0, 4);
    Head.FlipEffect(a[0], 14);
    Head.FlipEffect(b[0], 15);
    Head.FlipEffect(c[0], 16);
    BlockColumns();
  }

  lemma TwoZeros(z: seq<u32>)
    requires z == [0, 0]
    ensures Code.Syndrome(z, |z|) == 0 && !Code.OddParity(z, |z|)
  {
    Code.SynBitsZero(0, 32);
    Code.SynBitsZero(1, 32);
    XorUnit(0);
    assert Code.Syndrome(z, 0) == 0 && Code.Syndrome(z, 1) == 0;
    assert !Code.OddParity(z, 0) && !Code.OddParity(z, 1);
  }

  /** The columns of bits 4, 14, 15 and 16 cancel. */
  lemma BlockColumns()
    ensures Xor(Xor(Xor(Xor(0, Code.Column(4)), Code.Column(14)), Code.Column(15)), Code.Column(16)) == 0
  {
    Powers();
    XorUnit(0x10);
    SetBit(0x10, 14);
    XorUnit(0x4010);
    XorSelf(0x4010);
  }

  // ----- the chain

  lemma SampleClean()
    ensures Clean(Sample(), 0, 1)
    ensures CleanCalls(Sample(), 0, 1) == [Call(0, 0)]
  {
    hide Code.Codeword, Head.Codeword;
    var s := Sample();
    FirstBlock();
    SecondBlock();
    assert s[0..1] == [FIRST] && s[1..3] == [SECOND, 0];
    assert NextCount(FIRST) == 2 && PatchCount(FIRST) == 0;
    assert NextCount(SECOND) == 0 && PatchCount(SECOND) == 1;
    assert Clean(s, 3, 0) && CleanCalls(s, 3, 0) == [];
    assert Clean(s, 1, 2) && CleanCalls(s, 1, 2) == Calls(s[1..3], 1) + [];
    assert Calls(s[1..3], 1) == Calls(s[1..3], 0) + [Call(0, 0)];
    assert Calls(s[0..1], 0) == [];
  }

  /** One flipped bit in the first block, and the patch of the second one is not read; no
      error is reported. */
  lemma CutShortExample(buf: seq<u32>)
    requires |buf| == BUFFER_WORDS
    ensures Clean(Sample(), 0, 1) && Faulty(Sample(), Damaged(), 0, 1)
    ensures Lost(Sample(), Damaged(), 0, 1) == [Call(0, 0)]
    ensures Chain(Sample(), 0, 1, buf) == Outcome(0, [Call(0, 0)])
    ensures Chain(Damaged(), 0, 1, buf) == Outcome(0, [])
  {
    hide Chain, Clean, CleanCalls;
    var s, t := Sample(), Damaged();
    SampleClean();
    DamagedFaulty();
    DamagedChainReadsClean(s, t, 1, buf, buf);
    FaultsTolerated(s, t, 0, 1, buf);
    SuffixEmpty([Call(0, 0)], Chain(t, 0, 1, buf).calls);
    assert |Chain(t, 0, 1, buf).calls| + 1 == 1;
  }

  lemma DamagedFaulty()
    requires Clean(Sample(), 0, 1) && CleanCalls(Sample(), 0, 1) == [Call(0, 0)]
    ensures Faulty(Sample(), Damaged(), 0, 1)
    ensures Lost(Sample(), Damaged(), 0, 1) == [Call(0, 0)]
  {
    hide Code.Codeword, Head.Codeword, Pow2, Xor;
    var s, t := Sample(), Damaged();
    assert NextCount(FIRST) == 2 && PatchCount(FIRST) == 0 && NextCount(t[0]) == 0;
    Powers();
    FlipWord(t[0..1], 26, FIRST);
    Code.FlipTwice(t[0..1], 26);
    assert s[0..1] == Code.Flip(t[0..1], 26);
    assert t[0..1] == Code.Flip(s[0..1], 26);
    assert OneFlip(s[0..1], t[0..1]);
    SameRest(1, 2);
    assert Calls(s[0..1], 0) == [];
  }

  lemma {:induction false} SameRest(o: nat, c: nat)
    requires 0 < o < BUFFER_WORDS && Clean(Sample(), o, c)
    ensures Faulty(Sample(), Damaged(), o, c)
    decreases BUFFER_WORDS - o
  {
    hide Code.Codeword, Head.Codeword, NextCount, PatchCount;
    if c != 0 {
      assert Sample()[o..o + c] == Damaged()[o..o + c];
      SameRest(o + c, NextCount(Sample()[o]));
    }
  }
}
