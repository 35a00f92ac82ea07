/** The checksum of Joy-Con packets, bdk/input/joycon.c. */
module JoyCrc {
  const POLY: bv8 := 0x8D

  /** One bit of the inner loop. */
  function Shift(crc: bv8): bv8 {
    if crc & 0x80 != 0 then (crc << 1) ^ POLY else crc << 1
  }

  function Shifts(crc: bv8, n: nat): bv8
    decreases n
  {
    if n == 0 then crc else Shifts(Shift(crc), n - 1)
  }

  function Add(a: bv8, b: bv8): bv8 {
    a ^ b
  }

  /** The specification: byte after byte from `init` on. */
  function Crc(data: seq<bv8>, init: bv8): bv8
    decreases |data|
  {
    if data == [] then init else Crc(data[1..], Shifts(Add(init, data[0]), 8))
  }

  /** `_jc_crc` */
  method JcCrc(data: seq<bv8>, init: bv8) returns (crc: bv8)
    requires |data| < 0x1_0000
    ensures crc == Crc(data, init)
  {
    crc := init;
    for i := 0 to |data|
      invariant Crc(data[i..], crc) == Crc(data, init)
    {
      ghost var c := crc ^ data[i];
      crc := crc ^ data[i];
      for j := 0 to 8
        invariant Shifts(crc, 8 - j) == Shifts(c, 8)
      {
        if crc & 0x80 != 0 {
          crc := (crc << 1) ^ POLY;
        } else {
          crc := crc << 1;
        }
      }
      assert data[i..][1..] == data[i + 1..];
    }
  }

  /** The polynomial is x^8 + x^7 + x^3 + x^2 + 1: the byte 1 leaves its lower part. */
  lemma CrcOfOne()
    ensures Crc([1], 0) == 0x8D && Crc([0], 0) == 0
  {
    assert Shifts(1, 8) == Shifts(0x80, 1) by {
      assert Shift(1) == 2 && Shift(2) == 4 && Shift(4) == 8 && Shift(8) == 0x10;
      assert Shift(0x10) == 0x20 && Shift(0x20) == 0x40 && Shift(0x40) == 0x80;
      assert Shifts(1, 8) == Shifts(2, 7) == Shifts(4, 6) == Shifts(8, 5) == Shifts(0x10, 4);
      assert Shifts(0x10, 4) == Shifts(0x20, 3) == Shifts(0x40, 2) == Shifts(0x80, 1);
    }
    assert Shift(0x80) == 0x8D && Shifts(0x8D, 0) == 0x8D;
    assert Add(0, 1) == 1 && Add(0, 0) == 0 && [1][1..] == [] && [0][1..] == [];
    ZeroStays(8);
  }

  // ----- nothing is lost in the register

  lemma ShiftInjective(a: bv8, b: bv8)
    requires Shift(a) == Shift(b)
    ensures a == b
  {
  }

  lemma {:induction false} ShiftsInjective(a: bv8, b: bv8, n: nat)
    requires Shifts(a, n) == Shifts(b, n)
    ensures a == b
    decreases n
  {
    if n > 0 {
      ShiftsInjective(Shift(a), Shift(b), n - 1);
      ShiftInjective(a, b);
    }
  }

  lemma AddInjective(a: bv8, b: bv8, c: bv8)
    ensures Add(c, a) == Add(c, b) ==> a == b
  {
  }

  // ----- bit after bit

  function Feed(crc: bv8, bits: seq<bool>): bv8
    decreases |bits|
  {
    if bits == [] then crc else Feed(Shift(if bits[0] then crc ^ 0x80 else crc), bits[1..])
  }

  /** The top `n` bits of a byte, most significant first. */
  function TopBits(d: bv8, n: nat): (r: seq<bool>)
    ensures |r| == n
    decreases n
  {
    if n == 0 then [] else [d & 0x80 != 0] + TopBits(d << 1, n - 1)
  }

  function Doubled(d: bv8, n: nat): bv8
    decreases n
  {
    if n == 0 then d else Doubled(d << 1, n - 1)
  }

  function BitsOf(data: seq<bv8>): (r: seq<bool>)
    ensures |r| == 8 * |data|
  {
    if data == [] then [] else TopBits(data[0], 8) + BitsOf(data[1..])
  }

  lemma {:induction false} FeedAppend(crc: bv8, a: seq<bool>, b: seq<bool>)
    ensures Feed(crc, a + b) == Feed(Feed(crc, a), b)
    decreases |a|
  {
    if a == [] {
      assert a + b == b;
    } else {
      assert (a + b)[1..] == a[1..] + b;
      FeedAppend(Shift(if a[0] then crc ^ 0x80 else crc), a[1..], b);
    }
  }

  lemma BitSet(crc: bv8, d: bv8)
    requires d & 0x80 != 0
    ensures Shift(crc ^ 0x80) ^ (d << 1) == Shift(crc ^ d)
  {
  }

  lemma BitClear(crc: bv8, d: bv8)
    requires d & 0x80 == 0
    ensures Shift(crc) ^ (d << 1) == Shift(crc ^ d)
  {
  }

  lemma OneBit(crc: bv8, d: bv8)
    ensures Add(Shift(if d & 0x80 != 0 then crc ^ 0x80 else crc), d << 1) == Shift(Add(crc, d))
  {
    if d & 0x80 != 0 {
      BitSet(crc, d);
    } else {
      BitClear(crc, d);
    }
  }

  /** Adding the bits one by one is the same as adding all of the byte at once. */
  lemma {:induction false} FeedBits(crc: bv8, d: bv8, n: nat)
    ensures Add(Feed(crc, TopBits(d, n)), Doubled(d, n)) == Shifts(Add(crc, d), n)
    decreases n
  {
    hide Shift, Add;
    if n > 0 {
      OneBit(crc, d);
      FeedBits(Shift(if d & 0x80 != 0 then crc ^ 0x80 else crc), d << 1, n - 1);
      assert TopBits(d, n)[1..] == TopBits(d << 1, n - 1);
    }
  }

  lemma FeedByte(crc: bv8, d: bv8)
    ensures Feed(crc, TopBits(d, 8)) == Shifts(Add(crc, d), 8)
  {
    hide Feed, Shifts, Doubled, TopBits, Add;
    FeedBits(crc, d, 8);
    NothingLeft(d);
    AddZero(Feed(crc, TopBits(d, 8)));
  }

  lemma AddZero(a: bv8)
    ensures Add(a, 0) == a
  {
  }

  lemma Eight(d: bv8)
    ensures Doubled(d, 8) == d << 1 << 1 << 1 << 1 << 1 << 1 << 1 << 1
    ensures TopBits(d, 8) == [
      d & 0x80 != 0, (d << 1) & 0x80 != 0, (d << 1 << 1) & 0x80 != 0, (d << 1 << 1 << 1) & 0x80 != 0,
      (d << 1 << 1 << 1 << 1) & 0x80 != 0, (d << 1 << 1 << 1 << 1 << 1) & 0x80 != 0,
      (d << 1 << 1 << 1 << 1 << 1 << 1) & 0x80 != 0, (d << 1 << 1 << 1 << 1 << 1 << 1 << 1) & 0x80 != 0]
  {
    var d4 := d << 1 << 1 << 1 << 1;
    Four(d);
    Four(d4);
    TopSplit(d, 4, 4);
  }

  lemma Four(d: bv8)
    ensures Doubled(d, 4) == d << 1 << 1 << 1 << 1
    ensures TopBits(d, 4) == [
      d & 0x80 != 0, (d << 1) & 0x80 != 0, (d << 1 << 1) & 0x80 != 0, (d << 1 << 1 << 1) & 0x80 != 0]
  {
    Two(d);
    Two(d << 1 << 1);
    TopSplit(d, 2, 2);
  }

  lemma Two(d: bv8)
    ensures Doubled(d, 2) == d << 1 << 1 && TopBits(d, 2) == [d & 0x80 != 0, (d << 1) & 0x80 != 0]
  {
  }

  lemma {:induction false} TopSplit(d: bv8, m: nat, n: nat)
    ensures TopBits(d, m + n) == TopBits(d, m) + TopBits(Doubled(d, m), n)
    ensures Doubled(d, m + n) == Doubled(Doubled(d, m), n)
    decreases m
  {
    if m > 0 { TopSplit(d << 1, m - 1, n); }
  }

  lemma NothingLeft(d: bv8)
    ensures Doubled(d, 8) == 0
  {
    Eight(d);
    assert d << 1 << 1 << 1 << 1 << 1 << 1 << 1 << 1 == 0;
  }

  /** The checksum of the bytes is the bitwise one of their bits. */
  lemma {:induction false} CrcIsBitwise(data: seq<bv8>, init: bv8)
    ensures Crc(data, init) == Feed(init, BitsOf(data))
    decreases |data|
  {
    if data != [] {
      CrcIsBitwise(data[1..], Shifts(Add(init, data[0]), 8));
      FeedByte(init, data[0]);
      FeedAppend(init, TopBits(data[0], 8), BitsOf(data[1..]));
    }
  }

  // ----- what is detected

  /** Different registers stay different over the same bits. */
  lemma {:induction false} FeedInjective(a: bv8, b: bv8, bits: seq<bool>)
    requires Feed(a, bits) == Feed(b, bits)
    ensures a == b
    decreases |bits|
  {
    if bits != [] {
      var a', b' := if bits[0] then a ^ 0x80 else a, if bits[0] then b ^ 0x80 else b;
      FeedInjective(Shift(a'), Shift(b'), bits[1..]);
      ShiftInjective(a', b');
    }
  }

  /** The byte whose bits are `u`. */
  function Packed(u: seq<bool>): bv8
    requires |u| == 8
  {
    Pack(u[0], u[1], u[2], u[3], u[4], u[5], u[6], u[7])
  }

  function Pack(a: bool, b: bool, c: bool, d: bool, e: bool, f: bool, g: bool, h: bool): bv8 {
    (if a then 0x80 else 0) | (if b then 0x40 else 0) | (if c then 0x20 else 0) | (if d then 0x10 else 0) |
    (if e then 8 else 0) | (if f then 4 else 0) | (if g then 2 else 0) | (if h then 1 else 0)
  }

  lemma PackBits(a: bool, b: bool, c: bool, d: bool, e: bool, f: bool, g: bool, h: bool)
    ensures var x := Pack(a, b, c, d, e, f, g, h);
      a == (x & 0x80 != 0) && b == (x & 0x40 != 0) && c == (x & 0x20 != 0) && d == (x & 0x10 != 0) &&
      e == (x & 8 != 0) && f == (x & 4 != 0) && g == (x & 2 != 0) && h == (x & 1 != 0)
  {
  }

  lemma PackedBits(u: seq<bool>)
    requires |u| == 8
    ensures TopBits(Packed(u), 8) == u
  {
    hide Pack, TopBits;
    PackBits(u[0], u[1], u[2], u[3], u[4], u[5], u[6], u[7]);
    EightBits(Packed(u));
  }

  lemma Masks(d: bv8)
    ensures (d << 1) & 0x80 != 0 <==> d & 0x40 != 0
    ensures (d << 1 << 1) & 0x80 != 0 <==> d & 0x20 != 0
    ensures (d << 1 << 1 << 1) & 0x80 != 0 <==> d & 0x10 != 0
    ensures (d << 1 << 1 << 1 << 1) & 0x80 != 0 <==> d & 8 != 0
    ensures (d << 1 << 1 << 1 << 1 << 1) & 0x80 != 0 <==> d & 4 != 0
    ensures (d << 1 << 1 << 1 << 1 << 1 << 1) & 0x80 != 0 <==> d & 2 != 0
    ensures (d << 1 << 1 << 1 << 1 << 1 << 1 << 1) & 0x80 != 0 <==> d & 1 != 0
  {
  }

  lemma EightBits(d: bv8)
    ensures TopBits(d, 8) == [d & 0x80 != 0, d & 0x40 != 0, d & 0x20 != 0, d & 0x10 != 0,
                              d & 8 != 0, d & 4 != 0, d & 2 != 0, d & 1 != 0]
  {
    hide TopBits;
    Eight(d);
    Masks(d);
  }

  /** Two messages that differ somewhere within eight bits in a row, and nowhere else. */
  ghost predicate Burst(a: seq<bool>, b: seq<bool>, i: nat) {
    |a| == |b| && i + 8 <= |a| && a[i..i + 8] != b[i..i + 8] && a[..i] == b[..i] && a[i + 8..] == b[i + 8..]
  }

  lemma WindowInjective(c: bv8, u: seq<bool>, v: seq<bool>)
    requires |u| == 8 == |v| && Feed(c, u) == Feed(c, v)
    ensures u == v
  {
    hide Feed, Shifts, TopBits, Packed, Add;
    PackedBits(u);
    PackedBits(v);
    FeedByte(c, Packed(u));
    FeedByte(c, Packed(v));
    ShiftsInjective(Add(c, Packed(u)), Add(c, Packed(v)), 8);
    AddInjective(Packed(u), Packed(v), c);
  }

  lemma FeedThree(init: bv8, a: seq<bool>, i: nat)
    requires i + 8 <= |a|
    ensures Feed(init, a) == Feed(Feed(Feed(init, a[..i]), a[i..i + 8]), a[i + 8..])
  {
    hide Feed;
    assert a == a[..i] + (a[i..i + 8] + a[i + 8..]);
    FeedAppend(init, a[..i], a[i..i + 8] + a[i + 8..]);
    FeedAppend(Feed(init, a[..i]), a[i..i + 8], a[i + 8..]);
  }

  lemma BurstDetected(a: seq<bool>, b: seq<bool>, i: nat, init: bv8)
    requires Burst(a, b, i)
    ensures Feed(init, a) != Feed(init, b)
  {
    hide Feed;
    var c, u, v, s := Feed(init, a[..i]), a[i..i + 8], b[i..i + 8], a[i + 8..];
    FeedThree(init, a, i);
    FeedThree(init, b, i);
    if Feed(init, a) == Feed(init, b) {
      FeedInjective(Feed(c, u), Feed(c, v), s);
      WindowInjective(c, u, v);
      assert false;
    }
  }

  /** Corruption within eight bits in a row changes the checksum, whatever the length, the
      place and the start value. */
  lemma CrcDetectsBurst(a: seq<bv8>, b: seq<bv8>, i: nat, init: bv8)
    requires Burst(BitsOf(a), BitsOf(b), i)
    ensures Crc(a, init) != Crc(b, init)
  {
    CrcIsBitwise(a, init);
    CrcIsBitwise(b, init);
    BurstDetected(BitsOf(a), BitsOf(b), i, init);
  }

  /** One corrupted byte is such a burst. */
  lemma {:induction false} OneByteIsBurst(a: seq<bv8>, k: nat, d: bv8)
    requires k < |a| && a[k] != d
    ensures Burst(BitsOf(a), BitsOf(a[k := d]), 8 * k)
    decreases k
  {
    hide TopBits, Burst, BitsOf;
    var b := a[k := d];
    if k == 0 {
      BitsDetermineByte(a[0], d);
      FirstByteBurst(a[0], d, a[1..]);
      assert b == [d] + a[1..] && a == [a[0]] + a[1..];
    } else {
      assert b == [a[0]] + a[1..][k - 1 := d] && a == [a[0]] + a[1..];
      OneByteIsBurst(a[1..], k - 1, d);
      LaterByteBurst(a[0], a[1..], a[1..][k - 1 := d], 8 * (k - 1));
    }
  }

  lemma LaterByteBurst(d: bv8, a: seq<bv8>, b: seq<bv8>, i: nat)
    requires Burst(BitsOf(a), BitsOf(b), i)
    ensures Burst(BitsOf([d] + a), BitsOf([d] + b), 8 + i)
  {
    hide TopBits, Burst;
    assert ([d] + a)[1..] == a && ([d] + b)[1..] == b;
    BurstBehind(TopBits(d, 8), BitsOf(a), BitsOf(b), i);
  }

  lemma FirstByteBurst(d: bv8, e: bv8, rest: seq<bv8>)
    requires TopBits(d, 8) != TopBits(e, 8)
    ensures Burst(BitsOf([d] + rest), BitsOf([e] + rest), 0)
  {
    hide TopBits;
    var a, b := [d] + rest, [e] + rest;
    assert a[1..] == rest == b[1..];
    assert BitsOf(a)[0..8] == TopBits(d, 8) && BitsOf(b)[0..8] == TopBits(e, 8);
    assert BitsOf(a)[8..] == BitsOf(rest) == BitsOf(b)[8..];
  }

  lemma BitsDetermineByte(d: bv8, e: bv8)
    requires d != e
    ensures TopBits(d, 8) != TopBits(e, 8)
  {
    hide TopBits, Shifts, Add, Feed;
    if TopBits(d, 8) == TopBits(e, 8) {
      FeedByte(0, d);
      FeedByte(0, e);
      ShiftsInjective(Add(0, d), Add(0, e), 8);
      AddInjective(d, e, 0);
      assert false;
    }
  }

  lemma BurstBehind(u: seq<bool>, a: seq<bool>, b: seq<bool>, i: nat)
    requires Burst(a, b, i)
    ensures Burst(u + a, u + b, |u| + i)
  {
    var n := |u| + i;
    assert (u + a)[n..n + 8] == a[i..i + 8] && (u + b)[n..n + 8] == b[i..i + 8];
    assert (u + a)[..n] == u + a[..i] && (u + b)[..n] == u + b[..i];
    assert (u + a)[n + 8..] == a[i + 8..] && (u + b)[n + 8..] == b[i + 8..];
  }

  // ----- the header of a report

  const HEADER := 8

  /** The check at the start of `_jc_sio_uart_pkt_parse`. */
  function Accepted(header: seq<bv8>): bool
    requires |header| == HEADER
  {
    header[7] == Crc(header[..7], 0)
  }

  /** The check asks for a zero checksum over all eight bytes. */
  lemma AcceptedMeansZero(header: seq<bv8>)
    requires |header| == HEADER
    ensures Accepted(header) <==> Crc(header, 0) == 0
  {
    hide Crc, Shifts, Add;
    var c, d := Crc(header[..7], 0), header[7];
    assert header == header[..7] + [d];
    CrcAppend(header[..7], d, 0);
    ZeroStays(8);
    AddCancels(c, d);
    if Crc(header, 0) == 0 {
      ShiftsInjective(Add(c, d), 0, 8);
    }
  }

  lemma AddCancels(c: bv8, d: bv8)
    ensures Add(c, d) == 0 <==> c == d
  {
  }

  lemma ZeroStays(n: nat)
    ensures Shifts(0, n) == 0
  {
  }

  lemma {:induction false} CrcAppend(a: seq<bv8>, d: bv8, init: bv8)
    ensures Crc(a + [d], init) == Shifts(Add(Crc(a, init), d), 8)
    decreases |a|
  {
    if a != [] {
      assert (a + [d])[1..] == a[1..] + [d];
      CrcAppend(a[1..], d, Shifts(Add(init, a[0]), 8));
    }
  }

  /** Damage within eight bits in a row of a good header, the checksum included, makes the
      report be dropped. */
  lemma DamagedHeaderDropped(good: seq<bv8>, bad: seq<bv8>, i: nat)
    requires |good| == HEADER == |bad| && Accepted(good) && Burst(BitsOf(good), BitsOf(bad), i)
    ensures !Accepted(bad)
  {
    AcceptedMeansZero(good);
    AcceptedMeansZero(bad);
    CrcDetectsBurst(good, bad, i, 0);
  }

  lemma OneBadByteDropped(good: seq<bv8>, k: nat, d: bv8)
    requires |good| == HEADER && Accepted(good) && k < HEADER && good[k] != d
    ensures !Accepted(good[k := d])
  {
    OneByteIsBurst(good, k, d);
    DamagedHeaderDropped(good, good[k := d], 8 * k);
  }
}
