/** The walk over the chain of bootrom patch blocks in the fuse array
    (`fuse_read_ipatch` and `fuse_check_patched_rcm` of bdk/soc/fuse.c). */
module PatchChain {
  import opened Bits
  import Code = PatchCode
  import Hash = PatchHash
  import Head = PatchHead

  const ARRAY_WORDS := 192
  const ARRAY_WORDS_B01 := 256
  const BUFFER_WORDS := 80
  const RCM_OFFSET := 0x769A

  /** The two chips differ in the size of their fuse array. */
  datatype Chip = T210 | T210B01 {
    function Words(): nat {
      if T210? then ARRAY_WORDS else ARRAY_WORDS_B01
    }
  }

  datatype Call = Call(offset: nat, value: nat)
  datatype Outcome = Outcome(ret: int, calls: seq<Call>)

  /** The fuse address read `n`-th: backwards from 191, on T210B01 continuing from 255
      once 176 has been read. */
  function AddrAt(chip: Chip, n: nat): int {
    if chip.T210? || n < 16 then 191 - n else 271 - n
  }

  function Addrs(chip: Chip, n: nat): seq<int> {
    seq(n, k requires 0 <= k < n => AddrAt(chip, k))
  }

  /** The fuse words in reading order, as far as a chain may reach. */
  function Stream(chip: Chip, fuse: seq<u32>): (s: seq<u32>)
    requires |fuse| == chip.Words()
    ensures |s| == BUFFER_WORDS - 1
  {
    seq(BUFFER_WORDS - 1, n requires 0 <= n < BUFFER_WORDS - 1 => fuse[AddrAt(chip, n)])
  }

  function PatchCount(w: u32): nat {
    w / 0x1_0000 % 0x10
  }

  function NextCount(w: u32): nat {
    w / 0x200_0000
  }

  function CallOf(w: u32): Call {
    Call(w / 0x1_0000 * 2, w % 0x1_0000)
  }

  /** The callbacks for the `n` words following word 0. */
  function Calls(words: seq<u32>, n: nat): seq<Call>
    requires n < |words|
  {
    if n == 0 then [] else Calls(words, n - 1) + [CallOf(words[n])]
  }

  function Prepend(calls: seq<Call>, o: Outcome): Outcome {
    Outcome(o.ret, calls + o.calls)
  }

  /** The walk from stream position `o` with a next block of `c` words; `buf` is what
      the word buffer still holds. */
  function Chain(s: seq<u32>, o: nat, c: nat, buf: seq<u32>): Outcome
    requires o < BUFFER_WORDS && |s| == BUFFER_WORDS - 1 && |buf| == BUFFER_WORDS
    decreases BUFFER_WORDS - o
  {
    if c == 0 || o + c >= BUFFER_WORDS then Outcome(0, [])
    else
      var block := s[o..o + c];
      var d := Code.Decode(block);
      if d.ret >= 2 then Outcome(1, [])
      else
        var fixed := d.words + buf[c..];
        var calls := Calls(fixed, PatchCount(fixed[0]));
        if NextCount(block[0]) == 0 then Outcome(0, calls)
        else
          var h := Head.Decode(block[0]);
          if h.ret >= 2 then Outcome(3, calls)
          else Prepend(calls, Chain(s, o + c, NextCount(h.word), fixed[0 := block[0]]))
  }

  // ----- what the fields of a word mean

  /** A word 0 is made of the size of the next block in its upper seven bits, the number of
      patches in bits 16 to 19, and the bits around them. */
  lemma WordFields(w: u32)
    ensures NextCount(w) < 128 && PatchCount(w) < 16
    ensures w == NextCount(w) * 0x200_0000 + w / 0x10_0000 % 0x20 * 0x10_0000 + PatchCount(w) * 0x1_0000 + w % 0x1_0000
  {
    var q := w / 0x1_0000;
    var h := q / 0x10;
    assert w == q * 0x1_0000 + w % 0x1_0000;
    assert q == h * 0x10 + q % 0x10 && h == h / 0x20 * 0x20 + h % 0x20;
    assert w / 0x10_0000 == h && w / 0x200_0000 == h / 0x20;
  }

  /** A callback is the whole patch word: an even offset, whose half is the upper sixteen bits,
      and a value of the lower sixteen. */
  lemma CallIsWord(w: u32)
    ensures CallOf(w).offset % 2 == 0 && CallOf(w).value < 0x1_0000
    ensures CallOf(w).offset / 2 * 0x1_0000 + CallOf(w).value == w
  {
  }

  /** The callbacks are those of the words behind word 0, in their order. */
  lemma {:induction false} CallsInOrder(words: seq<u32>, n: nat, i: nat)
    requires i < n < |words|
    ensures |Calls(words, n)| == n
    ensures var c := Calls(words, n)[i];
      c.offset % 2 == 0 && c.value < 0x1_0000 && c.offset / 2 * 0x1_0000 + c.value == words[i + 1]
    decreases n
  {
    CallsLength(words, n - 1);
    CallIsWord(words[n]);
    if i < n - 1 { CallsInOrder(words, n - 1, i); }
  }

  lemma {:induction false} CallsLength(words: seq<u32>, n: nat)
    requires n < |words|
    ensures |Calls(words, n)| == n
  {
    if n > 0 { CallsLength(words, n - 1); }
  }

  /** A chain of 79 words still fits the buffer; what would make it 80 or more is not read. */
  lemma BufferLimit(chip: Chip, fuse: seq<u32>, o: nat, c: nat, buf: seq<u32>)
    requires |fuse| == chip.Words() && |buf| == BUFFER_WORDS && o < BUFFER_WORDS
    ensures |Stream(chip, fuse)| == 79 && |fuse| == if chip.T210? then 192 else 256
    ensures o + c >= 80 ==> Chain(Stream(chip, fuse), o, c, buf) == Outcome(0, [])
  {
  }

  /** Reading starts at 191 and goes down; on T210B01 it goes on at 255 behind 176. */
  lemma ReadingOrder(chip: Chip, n: nat)
    requires n < BUFFER_WORDS - 2
    ensures AddrAt(chip, 0) == 191
    ensures AddrAt(chip, n + 1) ==
      if chip.T210B01? && AddrAt(chip, n) == 176 then 255 else AddrAt(chip, n) - 1
  {
  }

  /** Every fuse word is read at most once and lies inside the array. */
  lemma AddressesDistinct(chip: Chip, m: nat, n: nat)
    requires m < n < BUFFER_WORDS - 1
    ensures 0 <= AddrAt(chip, m) < chip.Words() && 0 <= AddrAt(chip, n) < chip.Words()
    ensures AddrAt(chip, m) != AddrAt(chip, n)
  {
  }

  // ----- fuse_read_ipatch

  /** Reads the next block into the buffer. */
  method ReadBlock(chip: Chip, fuse: seq<u32>, words: array<u32>, ghost o: nat, count: nat, addr: int, addrs: seq<int>)
    returns (next: int, addrs': seq<int>)
    requires |fuse| == chip.Words() && words.Length == BUFFER_WORDS
    requires o + count < BUFFER_WORDS && addr == AddrAt(chip, o)
    requires addrs == Addrs(chip, o)
    modifies words
    ensures words[..count] == Stream(chip, fuse)[o..o + count]
    ensures words[count..] == old(words[count..])
    ensures next == AddrAt(chip, o + count)
    ensures addrs' == Addrs(chip, o + count)
  {
    hide Stream, Addrs;
    next, addrs' := addr, addrs;
    assert words[..0] == Stream(chip, fuse)[o..o];
    for i := 0 to count
      invariant words[..i] == Stream(chip, fuse)[o..o + i]
      invariant words[count..] == old(words[count..])
      invariant next == AddrAt(chip, o + i)
      invariant addrs' == Addrs(chip, o + i)
    {
      StreamNext(chip, fuse, o, i);
      ghost var before := words[..];
      words[i] := fuse[next];
      assert words[..i + 1] == before[..i] + [fuse[next]];
      assert words[count..] == before[count..];
      addrs' := addrs' + [next];
      next := next - 1;
      if chip == T210B01 && next == (ARRAY_WORDS - 1) - (ARRAY_WORDS_B01 - ARRAY_WORDS) / 4 {
        next := ARRAY_WORDS_B01 - 1;
      }
    }
  }

  lemma StreamNext(chip: Chip, fuse: seq<u32>, o: nat, i: nat)
    requires |fuse| == chip.Words() && o + i < BUFFER_WORDS - 1
    ensures 0 <= AddrAt(chip, o + i) < |fuse|
    ensures Stream(chip, fuse)[o..o + i + 1] == Stream(chip, fuse)[o..o + i] + [fuse[AddrAt(chip, o + i)]]
    ensures Addrs(chip, o + i + 1) == Addrs(chip, o + i) + [AddrAt(chip, o + i)]
  {
  }

  /** `calls` is the sequence of callbacks made, `addrs` that of the fuse words read. The
      buffer is uninitialised at first, so its contents are a parameter. */
  method ReadIpatch(chip: Chip, fuse: seq<u32>, sizeReg: u32, words: array<u32>)
    returns (ret: int, calls: seq<Call>, addrs: seq<int>)
    requires |fuse| == chip.Words() && words.Length == BUFFER_WORDS
    modifies words
    ensures Outcome(ret, calls) == Chain(Stream(chip, fuse), 0, sizeReg % 0x80, old(words[..]))
    ensures |addrs| < BUFFER_WORDS && addrs == Addrs(chip, |addrs|)
  {
    hide Stream, Chain, Code.Decode, Head.Decode, NextCount, BlockCalls;
    ghost var s := Stream(chip, fuse);
    ghost var all := Chain(s, 0, sizeReg % 0x80, words[..]);
    var wordCount := sizeReg % 0x80;
    var wordAddr := ARRAY_WORDS - 1;
    var totalRead := 0;
    calls, addrs := [], [];
    while wordCount != 0
      invariant 0 <= wordCount && 0 <= totalRead < BUFFER_WORDS
      invariant wordAddr == AddrAt(chip, totalRead)
      invariant addrs == Addrs(chip, totalRead)
      invariant all == Prepend(calls, Chain(s, totalRead, wordCount, words[..]))
      decreases BUFFER_WORDS - totalRead
    {
      ghost var o, buf := totalRead, words[..];
      ChainEnd(s, o, wordCount, buf);
      totalRead := totalRead + wordCount;
      if totalRead >= BUFFER_WORDS {
        break;
      }
      wordAddr, addrs := ReadBlock(chip, fuse, words, o, wordCount, wordAddr, addrs);
      ghost var block := words[..wordCount];
      assert words[wordCount..] == buf[wordCount..];
      var word0 := words[0];
      var res, more := PatchBlock(words, wordCount);
      ChainBlock(s, o, wordCount, buf, words[..]);
      PrependTwice(calls, more, Chain(s, totalRead, NextCount(Head.Decode(word0).word), words[..]));
      calls := calls + more;
      if res >= 2 {
        return 1, calls, addrs;
      }
      if NextCount(word0) == 0 {
        break;
      }
      var headRes, patched := Head.PatchHashOne(word0);
      if headRes >= 2 {
        return 3, calls, addrs;
      }
      wordCount := NextCount(patched);
    }
    ChainEnd(s, totalRead, 0, words[..]);
    ret := 0;
  }

  lemma ChainEnd(s: seq<u32>, o: nat, c: nat, buf: seq<u32>)
    requires |s| == BUFFER_WORDS - 1 && |buf| == BUFFER_WORDS
    ensures o < BUFFER_WORDS && (c == 0 || o + c >= BUFFER_WORDS) ==> Chain(s, o, c, buf) == Outcome(0, [])
  {
  }

  /** The callbacks for one block as stored. */
  function BlockCalls(block: seq<u32>, rest: seq<u32>): seq<Call>
    requires 0 < |block| && |block| + |rest| == BUFFER_WORDS
  {
    var d := Code.Decode(block);
    if d.ret >= 2 then [] else var fixed := d.words + rest; Calls(fixed, PatchCount(fixed[0]))
  }

  /** Lines 331 to 348: corrects the block in the buffer, makes its callbacks and puts the
      original word 0 back. */
  method PatchBlock(words: array<u32>, count: nat) returns (res: int, calls: seq<Call>)
    requires words.Length == BUFFER_WORDS && 0 < count < BUFFER_WORDS
    modifies words
    ensures res == Code.Decode(old(words[..count])).ret
    ensures calls == BlockCalls(old(words[..count]), old(words[count..]))
    ensures res < 2 ==> words[..] == (Code.Decode(old(words[..count])).words + old(words[count..]))[0 := old(words[0])]
  {
    ghost var block, rest := words[..count], words[count..];
    calls := [];
    var word0 := words[0];
    res := Hash.PatchHashMulti(words, count);
    if res < 2 {
      assert words[..] == words[..count] + words[count..];
      calls := MakeCalls(words, PatchCount(words[0]));
      words[0] := word0;
    }
  }

  /** One step of the walk, in terms of what `PatchBlock` leaves behind. */
  lemma ChainBlock(s: seq<u32>, o: nat, c: nat, buf: seq<u32>, after: seq<u32>)
    requires |s| == BUFFER_WORDS - 1 && |buf| == BUFFER_WORDS == |after|
    requires 0 < c && o + c < BUFFER_WORDS
    ensures var block := s[o..o + c];
            var d, h, calls := Code.Decode(block), Head.Decode(block[0]), BlockCalls(block, buf[c..]);
            (d.ret < 2 ==> after == (d.words + buf[c..])[0 := block[0]]) ==>
            Chain(s, o, c, buf) ==
              if d.ret >= 2 then Outcome(1, calls)
              else if NextCount(block[0]) == 0 then Outcome(0, calls)
              else if h.ret >= 2 then Outcome(3, calls)
              else Prepend(calls, Chain(s, o + c, NextCount(h.word), after))
  {
  }

  lemma PrependTwice(a: seq<Call>, b: seq<Call>, o: Outcome)
    ensures Prepend(a, Prepend(b, o)) == Prepend(a + b, o)
  {
    assert a + (b + o.calls) == a + b + o.calls;
  }

  method MakeCalls(words: array<u32>, count: nat) returns (calls: seq<Call>)
    requires count < words.Length
    ensures calls == Calls(words[..], count)
  {
    calls := [];
    for i := 0 to count
      invariant calls == Calls(words[..], i)
    {
      calls := calls + [CallOf(words[i + 1])];
    }
  }

  // ----- fault tolerance

  /** A well-formed chain: every block is a codeword of both codes and holds its patches. */
  predicate Clean(s: seq<u32>, o: nat, c: nat)
    requires o < BUFFER_WORDS && |s| == BUFFER_WORDS - 1
    decreases BUFFER_WORDS - o
  {
    c == 0
    || (&& o + c < BUFFER_WORDS
        && Code.Codeword(s[o..o + c])
        && Head.Codeword(s[o])
        && PatchCount(s[o]) < c
        && Clean(s, o + c, NextCount(s[o])))
  }

  /** At most one bit differs. */
  predicate OneFlip(a: seq<u32>, b: seq<u32>) {
    a == b || exists p | 0 <= p < 32 * |a| :: b == Code.Flip(a, p)
  }

  /** `t` is the clean chain `s` with at most one bit flipped in each block. */
  predicate Faulty(s: seq<u32>, t: seq<u32>, o: nat, c: nat)
    requires o < BUFFER_WORDS && |s| == |t| == BUFFER_WORDS - 1
    requires Clean(s, o, c)
    decreases BUFFER_WORDS - o
  {
    c == 0 || (OneFlip(s[o..o + c], t[o..o + c]) && Faulty(s, t, o + c, NextCount(s[o])))
  }

  /** The callbacks of a clean chain. */
  function CleanCalls(s: seq<u32>, o: nat, c: nat): seq<Call>
    requires o < BUFFER_WORDS && |s| == BUFFER_WORDS - 1
    requires Clean(s, o, c)
    decreases BUFFER_WORDS - o
  {
    if c == 0 then []
    else Calls(s[o..o + c], PatchCount(s[o])) + CleanCalls(s, o + c, NextCount(s[o]))
  }

  /** The callbacks of the blocks behind the first one whose size field, as stored, the
      fault has turned from nonzero into zero. */
  function Lost(s: seq<u32>, t: seq<u32>, o: nat, c: nat): seq<Call>
    requires o < BUFFER_WORDS && |s| == |t| == BUFFER_WORDS - 1
    requires Clean(s, o, c)
    decreases BUFFER_WORDS - o
  {
    if c == 0 then []
    else if NextCount(t[o]) == 0 then CleanCalls(s, o + c, NextCount(s[o]))
    else Lost(s, t, o + c, NextCount(s[o]))
  }

  /** The fault clears no size field. */
  predicate SizesSurvive(s: seq<u32>, t: seq<u32>, o: nat, c: nat)
    requires o < BUFFER_WORDS && |s| == |t| == BUFFER_WORDS - 1
    requires Clean(s, o, c)
    decreases BUFFER_WORDS - o
  {
    c == 0
    || (&& (NextCount(t[o]) == 0 ==> NextCount(s[o]) == 0)
        && SizesSurvive(s, t, o + c, NextCount(s[o])))
  }

  lemma {:induction false} XorHigh(a: nat, b: nat, n: nat)
    requires b < Pow2(n)
    ensures Xor(a, b) / Pow2(n) == a / Pow2(n)
  {
    if n == 0 {
      XorUnit(a);
    } else {
      XorHigh(a / 2, b / 2, n - 1);
      XorHalf(a, b);
      DivDiv(a, n);
      DivDiv(Xor(a, b), n);
    }
  }

  lemma LowBitsApart(w: u32, k: nat)
    requires k < 20
    ensures NextCount(Head.FlipBit(w, k)) == NextCount(w)
  {
    Pow2Values();
    Pow2Mono(k, 20);
    XorHigh(w, Pow2(k), 20);
    Shift25(w);
    Shift25(Head.FlipBit(w, k));
  }

  lemma ParityBitApart(w: u32)
    ensures PatchCount(Head.FlipBit(w, 15)) == PatchCount(w)
  {
    Pow2Values();
    XorHigh(w, Pow2(15), 16);
  }

  lemma PatchCountLow(w: u32)
    ensures PatchCount(Code.Low20(w)) == PatchCount(w)
  {
    var q, l := w / 0x1_0000, w % 0x1_0000;
    var h, c := q / 0x10, q % 0x10;
    assert w == (h * 0x10 + c) * 0x1_0000 + l;
    LowTwenty(h, c * 0x1_0000 + l);
    HighPart(c, l);
    SmallCount(c);
  }

  lemma LowTwenty(h: nat, l: nat)
    requires l < 0x10_0000
    ensures (h * 0x10_0000 + l) % 0x10_0000 == l
  {
  }

  lemma HighPart(c: nat, l: nat)
    requires l < 0x1_0000
    ensures (c * 0x1_0000 + l) / 0x1_0000 == c
  {
  }

  lemma SmallCount(c: nat)
    requires c < 0x10
    ensures c % 0x10 == c
  {
  }

  lemma Shift25(w: u32)
    ensures NextCount(w) == w / 0x10_0000 / 0x20
  {
  }

  /** One damaged block still yields the patches of the clean one. */
  lemma BlockRepaired(a: seq<u32>, b: seq<u32>)
    requires 0 < |a| < BUFFER_WORDS && Code.Codeword(a) && OneFlip(a, b)
    ensures |b| == |a| && Code.Decode(b).ret <= 1
    ensures Code.Decode(b).words[1..] == a[1..]
    ensures PatchCount(Code.Decode(b).words[0]) == PatchCount(a[0])
  {
    PatchCountLow(a[0]);
    ParityBitApart(Code.Low20(a[0]));
    if a == b {
      Code.CodewordAccepted(a);
    } else {
      var p :| 0 <= p < 32 * |a| && b == Code.Flip(a, p);
      Code.SingleErrorCorrected(a, p);
    }
  }

  /** ... and still names the size of the next one, as long as it names any. */
  lemma HeadRepaired(a: seq<u32>, b: seq<u32>)
    requires |a| > 0 && Head.Codeword(a[0]) && OneFlip(a, b)
    ensures |b| == |a| && Head.Decode(b[0]).ret <= 1
    ensures NextCount(Head.Decode(b[0]).word) == NextCount(a[0])
  {
    if a[0] != b[0] {
      var p :| 0 <= p < 32 * |a| && b == Code.Flip(a, p);
      Head.SingleErrorCorrected(a[0], p);
      if p < 20 { LowBitsApart(a[0], p); }
    }
  }

  lemma {:induction false} CallsCongruent(a: seq<u32>, b: seq<u32>, n: nat)
    requires n < |a| && n < |b|
    requires forall i | 0 < i <= n :: a[i] == b[i]
    ensures Calls(a, n) == Calls(b, n)
  {
    if n > 0 { CallsCongruent(a, b, n - 1); }
  }

  /** A damaged block makes the calls of the clean one; the walk goes on as from the clean
      one unless the stored size has become zero. `after` is what the buffer then holds. */
  lemma FaultStep(s: seq<u32>, t: seq<u32>, o: nat, c: nat, buf: seq<u32>) returns (after: seq<u32>)
    requires o + c < BUFFER_WORDS && |s| == |t| == BUFFER_WORDS - 1 && |buf| == BUFFER_WORDS && c > 0
    requires Code.Codeword(s[o..o + c]) && Head.Codeword(s[o]) && PatchCount(s[o]) < c
    requires OneFlip(s[o..o + c], t[o..o + c])
    ensures |after| == BUFFER_WORDS
    ensures var calls := Calls(s[o..o + c], PatchCount(s[o]));
            Chain(t, o, c, buf) == if NextCount(t[o]) == 0 then Outcome(0, calls)
                                   else Prepend(calls, Chain(t, o + c, NextCount(s[o]), after))
  {
    hide Code.Decode, Head.Decode, Code.Codeword, Head.Codeword, NextCount, PatchCount, OneFlip, Calls, Prepend;
    var a, b := s[o..o + c], t[o..o + c];
    BlockRepaired(a, b);
    HeadRepaired(a, b);
    var d := Code.Decode(b);
    var fixed := d.words + buf[c..];
    forall i | 0 < i < c ensures fixed[i] == a[i] {
      assert d.words[1..][i - 1] == a[1..][i - 1];
    }
    CallsCongruent(a, fixed, PatchCount(a[0]));
    after := fixed[0 := b[0]];
  }

  /** A chain with one flipped bit per block delivers the clean chain's callbacks, without
      an error, up to the first size field that the fault has cleared. */
  lemma {:induction false} FaultsTolerated(s: seq<u32>, t: seq<u32>, o: nat, c: nat, buf: seq<u32>)
    requires o < BUFFER_WORDS && |s| == |t| == BUFFER_WORDS - 1 && |buf| == BUFFER_WORDS
    requires Clean(s, o, c) && Faulty(s, t, o, c)
    ensures Chain(t, o, c, buf).ret == 0
    ensures Chain(t, o, c, buf).calls + Lost(s, t, o, c) == CleanCalls(s, o, c)
    decreases BUFFER_WORDS - o
  {
    hide Code.Codeword, Head.Codeword, NextCount, PatchCount, OneFlip, Calls, Chain, Clean, Faulty, Lost, CleanCalls;
    if c == 0 {
      EmptyChain(s, t, o, buf);
    } else {
      var n := FirstLink(s, o, c);
      FirstFault(s, t, o, c, n);
      FirstCalls(s, t, o, c, n);
      var after := FaultStep(s, t, o, c, buf);
      if NextCount(t[o]) != 0 {
        FaultsTolerated(s, t, o + c, NextCount(s[o]), after);
      }
    }
  }

  lemma EmptyChain(s: seq<u32>, t: seq<u32>, o: nat, buf: seq<u32>)
    requires o < BUFFER_WORDS && |s| == |t| == BUFFER_WORDS - 1 && |buf| == BUFFER_WORDS && Clean(s, o, 0)
    ensures Chain(t, o, 0, buf) == Outcome(0, []) && Lost(s, t, o, 0) == [] == CleanCalls(s, o, 0)
  {
  }

  lemma FirstLink(s: seq<u32>, o: nat, c: nat) returns (n: nat)
    requires o < BUFFER_WORDS && |s| == BUFFER_WORDS - 1 && c > 0 && Clean(s, o, c)
    ensures o + c < BUFFER_WORDS && n == NextCount(s[o]) && Clean(s, o + c, n)
    ensures Code.Codeword(s[o..o + c]) && Head.Codeword(s[o]) && PatchCount(s[o]) < c
  {
    hide Code.Codeword, Head.Codeword, NextCount, PatchCount;
    n := NextCount(s[o]);
  }

  lemma FirstFault(s: seq<u32>, t: seq<u32>, o: nat, c: nat, n: nat)
    requires |s| == |t| == BUFFER_WORDS - 1 && c > 0 && o + c < BUFFER_WORDS && n == NextCount(s[o])
    requires Clean(s, o, c) && Clean(s, o + c, n) && Faulty(s, t, o, c)
    ensures OneFlip(s[o..o + c], t[o..o + c]) && Faulty(s, t, o + c, n)
  {
    hide Clean, NextCount, PatchCount, OneFlip;
  }

  lemma FirstCalls(s: seq<u32>, t: seq<u32>, o: nat, c: nat, n: nat)
    requires |s| == |t| == BUFFER_WORDS - 1 && c > 0 && o + c < BUFFER_WORDS && n == NextCount(s[o])
    requires PatchCount(s[o]) < c && Clean(s, o, c) && Clean(s, o + c, n)
    ensures CleanCalls(s, o, c) == Calls(s[o..o + c], PatchCount(s[o])) + CleanCalls(s, o + c, n)
    ensures Lost(s, t, o, c) == if NextCount(t[o]) == 0 then CleanCalls(s, o + c, n) else Lost(s, t, o + c, n)
  {
    hide Clean, NextCount, PatchCount, Calls;
  }

  lemma {:induction false} SameChain(s: seq<u32>, o: nat, c: nat)
    requires o < BUFFER_WORDS && |s| == BUFFER_WORDS - 1 && Clean(s, o, c)
    ensures Faulty(s, s, o, c) && SizesSurvive(s, s, o, c)
    decreases BUFFER_WORDS - o
  {
    if c != 0 { SameChain(s, o + c, NextCount(s[o])); }
  }

  lemma {:induction false} NothingLost(s: seq<u32>, t: seq<u32>, o: nat, c: nat)
    requires o < BUFFER_WORDS && |s| == |t| == BUFFER_WORDS - 1
    requires Clean(s, o, c) && SizesSurvive(s, t, o, c)
    ensures Lost(s, t, o, c) == []
    decreases BUFFER_WORDS - o
  {
    hide NextCount, PatchCount, Calls, Code.Codeword, Head.Codeword;
    if c != 0 && NextCount(t[o]) != 0 { NothingLost(s, t, o + c, NextCount(s[o])); }
  }

  /** What `fuse_read_ipatch` promises: the damaged and the clean chain are read alike if
      and only if no callback lies behind a cleared size field; in particular if the fault
      clears no size field. */
  lemma DamagedChainReadsClean(s: seq<u32>, t: seq<u32>, c: nat, buf: seq<u32>, buf': seq<u32>)
    requires |s| == |t| == BUFFER_WORDS - 1 && |buf| == |buf'| == BUFFER_WORDS
    requires Clean(s, 0, c) && Faulty(s, t, 0, c)
    ensures Chain(t, 0, c, buf) == Chain(s, 0, c, buf') <==> Lost(s, t, 0, c) == []
    ensures SizesSurvive(s, t, 0, c) ==> Chain(t, 0, c, buf) == Chain(s, 0, c, buf')
    ensures Chain(s, 0, c, buf') == Outcome(0, CleanCalls(s, 0, c))
  {
    hide Clean, Faulty, Chain, CleanCalls, Lost, SizesSurvive;
    CleanChain(s, c, buf');
    FaultsTolerated(s, t, 0, c, buf);
    if SizesSurvive(s, t, 0, c) { NothingLost(s, t, 0, c); }
    SuffixEmpty(Chain(t, 0, c, buf).calls, Lost(s, t, 0, c));
  }

  lemma SuffixEmpty<T>(a: seq<T>, b: seq<T>)
    ensures a + b == a <==> b == []
  {
    assert |a + b| == |a| + |b|;
    assert a + [] == a;
  }

  lemma CleanChain(s: seq<u32>, c: nat, buf: seq<u32>)
    requires |s| == BUFFER_WORDS - 1 && |buf| == BUFFER_WORDS && Clean(s, 0, c)
    ensures Chain(s, 0, c, buf) == Outcome(0, CleanCalls(s, 0, c))
  {
    SameChain(s, 0, c);
    NothingLost(s, s, 0, c);
    FaultsTolerated(s, s, 0, c, buf);
    SuffixEmpty(Chain(s, 0, c, buf).calls, Lost(s, s, 0, c));
  }

  // ----- damage that is reported

  /** Two flipped bits in a block, one of them in the reach of its code, end the walk with 1
      and without a callback of that block. */
  lemma DoubleFaultStops(s: seq<u32>, t: seq<u32>, o: nat, c: nat, p: nat, q: nat, buf: seq<u32>)
    requires o < BUFFER_WORDS && |s| == |t| == BUFFER_WORDS - 1 && |buf| == BUFFER_WORDS
    requires c > 0 && Clean(s, o, c) && p < q < 32 * c && !(Code.ZeroColumn(p) && Code.ZeroColumn(q))
    requires t[o..o + c] == Code.Flip(Code.Flip(s[o..o + c], p), q)
    ensures Chain(t, o, c, buf) == Outcome(1, [])
  {
    hide Code.Decode, Code.Codeword, Head.Codeword, Head.Decode, NextCount, PatchCount;
    Code.DoubleErrorDetected(s[o..o + c], p, q);
  }

  /** Two flipped bits in the size field and its check bits leave the block's own callbacks,
      and then end the walk with 3, unless the field reads zero. */
  lemma DoubleHeadFaultStops(s: seq<u32>, t: seq<u32>, o: nat, c: nat, p: nat, q: nat, buf: seq<u32>)
    requires o < BUFFER_WORDS && |s| == |t| == BUFFER_WORDS - 1 && |buf| == BUFFER_WORDS
    requires c > 0 && Clean(s, o, c) && 20 <= p < q < 32
    requires t[o..o + c] == Code.Flip(Code.Flip(s[o..o + c], p), q)
    ensures Chain(t, o, c, buf) ==
      Outcome(if NextCount(t[o]) == 0 then 0 else 3, Calls(s[o..o + c], PatchCount(s[o])))
  {
    hide Code.Decode, Code.Codeword, Head.Codeword, Head.Decode, NextCount, PatchCount, Calls, Chain, BlockCalls;
    hide Clean, Code.Flip, Head.FlipBit;
    var n := FirstLink(s, o, c);
    var a, b := s[o..o + c], t[o..o + c];
    Head.DoubleErrorDetected(a[0], p, q);
    FlippedHead(a, p, q);
    UnharmedCalls(a, b, p, q, buf[c..]);
    ChainBlock(t, o, c, buf, (Code.Decode(b).words + buf[c..])[0 := b[0]]);
  }

  lemma FlippedHead(a: seq<u32>, p: nat, q: nat)
    requires 0 < |a| && p < 32 && q < 32
    ensures Code.Flip(Code.Flip(a, p), q)[0] == Head.FlipBit(Head.FlipBit(a[0], p), q)
  {
  }

  lemma UnharmedCalls(a: seq<u32>, b: seq<u32>, p: nat, q: nat, rest: seq<u32>)
    requires 0 < |a| < BUFFER_WORDS == |a| + |rest| && Code.Codeword(a) && PatchCount(a[0]) < |a|
    requires 20 <= p < q < 32 && b == Code.Flip(Code.Flip(a, p), q)
    ensures Code.Decode(b).ret == 0 && BlockCalls(b, rest) == Calls(a, PatchCount(a[0]))
  {
    hide Code.Codeword, Code.Decode, PatchCount, Calls;
    UnharmedBlock(a, b, p, q);
    PatchCountLow(a[0]);
    CallsCongruent(a, Code.Decode(b).words + rest, PatchCount(a[0]));
  }

  lemma UnharmedBlock(a: seq<u32>, b: seq<u32>, p: nat, q: nat)
    requires 0 < |a| < BUFFER_WORDS && Code.Codeword(a) && 20 <= p < q < 32 && b == Code.Flip(Code.Flip(a, p), q)
    ensures Code.Decode(b).ret == 0 && Code.Decode(b).words == a[0 := Code.Low20(a[0])]
  {
    hide Code.Codeword, Code.Syndrome, Code.OddParity;
    Code.DoubleErrorDetected(a, p, q);
    Code.CodewordAccepted(b);
    Code.PayloadFlip(a, p);
    Code.PayloadFlip(Code.Flip(a, p), q);
  }

  // ----- fuse_check_patched_rcm

  predicate PatchesRcm(calls: seq<Call>) {
    exists i | 0 <= i < |calls| :: calls[i].offset == RCM_OFFSET
  }

  /** 0x769A is the offset looked for. */
  lemma RcmOffset(value: nat, other: nat)
    ensures PatchesRcm([Call(0x769A, value)]) && (other != 0x769A ==> !PatchesRcm([Call(other, value)]))
  {
    assert [Call(0x769A, value)][0].offset == RCM_OFFSET;
  }

  lemma PatchesRcmSplit(a: seq<Call>, b: seq<Call>)
    ensures PatchesRcm(a + b) == (PatchesRcm(a) || PatchesRcm(b))
  {
    if i :| 0 <= i < |a| && a[i].offset == RCM_OFFSET { assert (a + b)[i].offset == RCM_OFFSET; }
    if i :| 0 <= i < |b| && b[i].offset == RCM_OFFSET { assert (a + b)[|a| + i].offset == RCM_OFFSET; }
  }

  /** The words of a block at `addr`, in reading order, as far as the scan looks. */
  function RawBlock(fuse: seq<u32>, addr: nat): (block: seq<u32>)
    requires addr < |fuse| && PatchCount(fuse[addr]) <= addr
    ensures |block| == PatchCount(fuse[addr]) + 1
  {
    seq(PatchCount(fuse[addr]) + 1, i requires 0 <= i < PatchCount(fuse[addr]) + 1 => fuse[addr - i])
  }

  /** Does one of the patches of the block at `addr`, as stored, hit the RCM offset? */
  predicate RawHit(fuse: seq<u32>, addr: nat)
    requires addr < |fuse| && PatchCount(fuse[addr]) <= addr
  {
    PatchesRcm(Calls(RawBlock(fuse, addr), PatchCount(fuse[addr])))
  }

  /** The chain as stored stays inside the array, as far as the scan follows it. */
  predicate RawFits(fuse: seq<u32>, addr: int, count: nat)
    decreases if addr < 0 then 0 else addr + 1
  {
    count == 0
    || (&& 0 <= addr < |fuse|
        && PatchCount(fuse[addr]) <= addr
        && (RawHit(fuse, addr) || RawFits(fuse, addr - count, NextCount(fuse[addr]))))
  }

  /** A patch of the chain as stored, errors and all, hits the RCM offset. */
  predicate RawPatched(fuse: seq<u32>, addr: int, count: nat)
    requires RawFits(fuse, addr, count)
    decreases if addr < 0 then 0 else addr + 1
  {
    count != 0 && (RawHit(fuse, addr) || RawPatched(fuse, addr - count, NextCount(fuse[addr])))
  }

  method BlockPatchesRcm(fuse: seq<u32>, addr: nat) returns (found: bool)
    requires addr < |fuse| && PatchCount(fuse[addr]) <= addr
    ensures found == RawHit(fuse, addr)
  {
    ghost var block, count := RawBlock(fuse, addr), PatchCount(fuse[addr]);
    for i := 0 to PatchCount(fuse[addr])
      invariant !PatchesRcm(Calls(block, i))
    {
      var word := fuse[addr - (i + 1)];
      PatchesRcmSplit(Calls(block, i), [CallOf(word)]);
      assert PatchesRcm([CallOf(word)]) <==> [CallOf(word)][0].offset == RCM_OFFSET;
      if word / 0x1_0000 * 2 == RCM_OFFSET {
        FoundEarly(block, i + 1, count);
        return true;
      }
    }
    return false;
  }

  lemma {:induction false} FoundEarly(block: seq<u32>, i: nat, count: nat)
    requires i <= count < |block| && PatchesRcm(Calls(block, i))
    ensures PatchesRcm(Calls(block, count))
  {
    if i < count {
      FoundEarly(block, i, count - 1);
      PatchesRcmSplit(Calls(block, count - 1), [CallOf(block[count])]);
    }
  }

  /** The scan reads the chain as stored; it is not corrected. On a clean chain it finds the
      RCM patch exactly if the chain registers it. */
  method CheckPatchedRcm(chip: Chip, fuse: seq<u32>, sizeReg: u32, reservedSw: u32) returns (patched: bool)
    requires |fuse| == chip.Words()
    requires chip.T210? && reservedSw / 0x80 % 2 == 0 ==> RawFits(fuse, ARRAY_WORDS - 1, sizeReg % 0x80)
    ensures reservedSw / 0x80 % 2 == 1 || chip.T210B01? ==> patched
    ensures reservedSw / 0x80 % 2 == 0 && chip.T210? ==> patched == RawPatched(fuse, ARRAY_WORDS - 1, sizeReg % 0x80)
  {
    hide RawHit, PatchCount, NextCount;
    if reservedSw / 0x80 % 2 == 1 || chip == T210B01 {
      return true;
    }
    var wordCount := sizeReg % 0x80;
    var wordAddr := ARRAY_WORDS - 1;
    while wordCount != 0
      invariant 0 <= wordCount && wordAddr < |fuse| && RawFits(fuse, wordAddr, wordCount)
      invariant RawPatched(fuse, wordAddr, wordCount) == RawPatched(fuse, ARRAY_WORDS - 1, sizeReg % 0x80)
      decreases if wordAddr < 0 then 0 else wordAddr + 1, wordCount
    {
      var word0 := fuse[wordAddr];
      var found := BlockPatchesRcm(fuse, wordAddr);
      if found {
        return true;
      }
      wordAddr := wordAddr - wordCount;
      wordCount := NextCount(word0);
    }
    return false;
  }

  /** A clean chain stays inside the array, and what the scan finds is among its callbacks. */
  lemma {:induction false} CleanScan(fuse: seq<u32>, o: nat, c: nat)
    requires |fuse| == ARRAY_WORDS && o < BUFFER_WORDS && Clean(Stream(T210, fuse), o, c)
    ensures RawFits(fuse, ARRAY_WORDS - 1 - o, c)
    ensures RawPatched(fuse, ARRAY_WORDS - 1 - o, c) == PatchesRcm(CleanCalls(Stream(T210, fuse), o, c))
    decreases BUFFER_WORDS - o
  {
    hide PatchCount, NextCount, Code.Codeword, Head.Codeword, Calls, PatchesRcm;
    var s, addr := Stream(T210, fuse), ARRAY_WORDS - 1 - o;
    if c == 0 {
      assert !PatchesRcm([]) by { NothingPatched(); }
    } else {
      assert s[o] == fuse[addr];
      var n := PatchCount(s[o]);
      CleanScan(fuse, o + c, NextCount(s[o]));
      CallsCongruent(s[o..o + c], RawBlock(fuse, addr), n);
      PatchesRcmSplit(Calls(s[o..o + c], n), CleanCalls(s, o + c, NextCount(s[o])));
    }
  }

  lemma NothingPatched()
    ensures !PatchesRcm([])
  {
  }
}
