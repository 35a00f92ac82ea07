/** The editor of a 32-bit number, byte after byte, in ums-loader/main.c. */
module Selector {
  import opened Bits

  /** The weights of the four bytes. */
  predicate Step(step: int) {
    step in {1, 0x100, 0x1_0000, 0x100_0000}
  }

  /** The byte of weight `step`, as masks and shifts pick it. */
  function ByteOf(val: u32, step: nat): (b: nat)
    requires Step(step)
    ensures b < 256
  {
    val / step % 256
  }

  /** `val` with that byte cleared. */
  function Rest(val: u32, step: nat): (r: u32)
    requires Step(step)
    ensures r + ByteOf(val, step) * step == val
  {
    ByteWeight(val, step);
    val - ByteOf(val, step) * step
  }

  lemma ByteWeight(val: u32, step: nat)
    requires Step(step)
    ensures val / step % 256 * step <= val
  {
    if step == 1 {} else if step == 0x100 {} else if step == 0x1_0000 {} else {}
  }

  /** `(val & ~mask) | (byte << shift)` */
  function WithByte(val: u32, step: nat, b: nat): (r: u32)
    requires Step(step) && b < 256
    ensures r == Rest(val, step) + b * step
  {
    RestRoom(val, step);
    assert b * step <= 255 * step;
    Rest(val, step) + b * step
  }

  lemma RestRoom(val: u32, step: nat)
    requires Step(step)
    ensures Rest(val, step) + 255 * step < WRAP
  {
    if step == 1 {} else if step == 0x100 {} else if step == 0x1_0000 {} else {}
  }

  /** The bytes above and below are `hi` and `lo`. */
  lemma ByteIs(val: u32, step: nat, hi: nat, b: nat, lo: nat)
    requires Step(step) && lo < step && b < 256 && val == hi * (256 * step) + b * step + lo
    ensures ByteOf(val, step) == b && Rest(val, step) == hi * (256 * step) + lo
  {
    var q := hi * 256 + b;
    Distribute(hi, b, step);
    Quotient(step, q, lo);
    LowDigit(hi, b);
  }

  lemma Distribute(hi: nat, b: nat, step: nat)
    ensures (hi * 256 + b) * step == hi * (256 * step) + b * step
  {
  }

  lemma LowDigit(hi: nat, b: nat)
    requires b < 256
    ensures (hi * 256 + b) % 256 == b
  {
  }

  lemma Quotient(step: nat, q: nat, lo: nat)
    requires Step(step) && lo < step
    ensures (q * step + lo) / step == q
  {
    if step == 1 {} else if step == 0x100 {} else if step == 0x1_0000 {} else {}
  }

  lemma Digits(val: u32, step: nat) returns (hi: nat, lo: nat)
    requires Step(step)
    ensures lo < step && val == hi * (256 * step) + ByteOf(val, step) * step + lo
  {
    var q := val / step;
    hi, lo := q / 256, val % step;
    Parts(val, step);
    LastDigit(q);
    Distribute(hi, q % 256, step);
  }

  lemma Parts(val: nat, step: nat)
    requires Step(step)
    ensures val == val / step * step + val % step && 0 <= val % step < step
  {
  }

  lemma LastDigit(q: nat)
    ensures q == q / 256 * 256 + q % 256
  {
  }

  lemma WithByteHas(val: u32, step: nat, b: nat)
    requires Step(step) && b < 256
    ensures ByteOf(WithByte(val, step, b), step) == b && Rest(WithByte(val, step, b), step) == Rest(val, step)
  {
    hide ByteOf, Rest;
    var hi, lo := Digits(val, step);
    ByteIs(val, step, hi, ByteOf(val, step), lo);
    ByteIs(WithByte(val, step, b), step, hi, b, lo);
  }

  // ----- up and down

  /** The largest value of the byte that keeps the number within `max`. */
  function Largest(val: u32, step: nat, max: u32): (k: nat)
    requires Step(step) && val <= max
    ensures ByteOf(val, step) <= k < 256 && WithByte(val, step, k) <= max
    ensures k < 255 ==> WithByte(val, step, k + 1) > max
  {
    LargestFrom(val, step, max, ByteOf(val, step))
  }

  function LargestFrom(val: u32, step: nat, max: u32, k: nat): (r: nat)
    requires Step(step) && k < 256 && WithByte(val, step, k) <= max
    ensures k <= r < 256 && WithByte(val, step, r) <= max && (r < 255 ==> WithByte(val, step, r + 1) > max)
    decreases 256 - k
  {
    if k < 255 && WithByte(val, step, k + 1) <= max then LargestFrom(val, step, max, k + 1) else k
  }

  lemma LargestUnique(val: u32, step: nat, max: u32, k: nat, m: nat)
    requires Step(step) && k < 256 && m < 256 && WithByte(val, step, k) <= max && WithByte(val, step, m) <= max
    requires (k < 255 ==> WithByte(val, step, k + 1) > max) && (m < 255 ==> WithByte(val, step, m + 1) > max)
    ensures k == m
  {
    assert k < m ==> (k + 1) * step <= m * step;
    assert m < k ==> (m + 1) * step <= k * step;
  }

  /** The byte runs in a circle through all the values that stay within `max`. */
  function Up(val: u32, step: nat, max: u32): u32
    requires Step(step) && val <= max
  {
    var b := ByteOf(val, step);
    WithByte(val, step, if b < Largest(val, step, max) then b + 1 else 0)
  }

  function Down(val: u32, step: nat, max: u32): u32
    requires Step(step) && val <= max
  {
    var b := ByteOf(val, step);
    WithByte(val, step, if b > 0 then b - 1 else Largest(val, step, max))
  }

  lemma Smaller(val: u32, step: nat, b: nat, c: nat)
    requires Step(step) && b <= c < 256
    ensures WithByte(val, step, b) <= WithByte(val, step, c)
    ensures b < c ==> WithByte(val, step, c) >= WithByte(val, step, b) + step
  {
    assert b * step <= c * step;
    assert b < c ==> (b + 1) * step <= c * step;
  }

  lemma SameLargest(val: u32, step: nat, b: nat, max: u32)
    requires Step(step) && b < 256 && val <= max && WithByte(val, step, b) <= max
    ensures Largest(WithByte(val, step, b), step, max) == Largest(val, step, max)
  {
    var v := WithByte(val, step, b);
    WithByteHas(val, step, b);
    LargestUnique(val, step, max, Largest(val, step, max), Largest(v, step, max));
  }

  lemma StaysWithin(val: u32, step: nat, max: u32)
    requires Step(step) && val <= max
    ensures Up(val, step, max) <= max && Down(val, step, max) <= max
  {
    var b, k := ByteOf(val, step), Largest(val, step, max);
    Smaller(val, step, if b < k then b + 1 else 0, k);
    Smaller(val, step, if b > 0 then b - 1 else k, k);
  }

  /** One press up and one press down cancel out, in either order, at the limits too. */
  lemma UpDown(val: u32, step: nat, max: u32)
    requires Step(step) && val <= max
    ensures Up(val, step, max) <= max && Down(Up(val, step, max), step, max) == val
    ensures Down(val, step, max) <= max && Up(Down(val, step, max), step, max) == val
  {
    StaysWithin(val, step, max);
    var b, k := ByteOf(val, step), Largest(val, step, max);
    var u, d := if b < k then b + 1 else 0, if b > 0 then b - 1 else k;
    WithByteHas(val, step, u);
    WithByteHas(val, step, d);
    SameLargest(val, step, u, max);
    SameLargest(val, step, d, max);
    hide Largest, WithByte;
    assert WithByte(val, step, b) == val by { Own(val, step); }
    Twice(val, step, u, b);
    Twice(val, step, d, b);
  }

  lemma Own(val: u32, step: nat)
    requires Step(step)
    ensures WithByte(val, step, ByteOf(val, step)) == val
  {
  }

  lemma Twice(val: u32, step: nat, b: nat, c: nat)
    requires Step(step) && b < 256 && c < 256
    ensures WithByte(WithByte(val, step, b), step, c) == WithByte(val, step, c)
  {
    WithByteHas(val, step, b);
  }

  // ----- the inner loop

  /** `temp` after `n` rounds of the loop of lines 544 to 546, were it never to stop. */
  function Lowered(temp: u32, step: nat, n: nat): u32
    requires Step(step)
    decreases n
  {
    if n == 0 then temp else Lowered((temp - step) % WRAP, step, n - 1)
  }

  lemma SameRemainder(temp: u32, step: nat)
    requires Step(step)
    ensures (temp - step) % WRAP % step == temp % step
    ensures temp >= step ==> (temp - step) % WRAP == temp - step && (temp - step) % step == temp % step
  {
    if step == 1 {} else if step == 0x100 {} else if step == 0x1_0000 {} else {}
  }

  lemma RemainderSmall(temp: u32, step: nat)
    requires Step(step)
    ensures 0 <= temp % step <= temp && (temp < step ==> temp % step == temp)
  {
  }

  lemma {:induction false} LoweredRemainder(temp: u32, step: nat, n: nat)
    requires Step(step)
    ensures Lowered(temp, step, n) % step == temp % step
    decreases n
  {
    if n > 0 {
      SameRemainder(temp, step);
      LoweredRemainder((temp - step) % WRAP, step, n - 1);
    }
  }

  lemma {:induction false} LoweredDown(temp: u32, step: nat) returns (n: nat)
    requires Step(step)
    ensures Lowered(temp, step, n) == temp % step
    decreases temp
  {
    RemainderSmall(temp, step);
    n := 0;
    if temp >= step {
      SameRemainder(temp, step);
      n := LoweredDown(temp - step, step);
      n := n + 1;
    }
  }

  /** The loop ends if and only if the bytes below the one selected are within the limit. */
  lemma LoopEndsExactly(temp: u32, step: nat, max: u32)
    requires Step(step)
    ensures (exists n: nat :: Lowered(temp, step, n) <= max) <==> temp % step <= max
  {
    if n: nat :| Lowered(temp, step, n) <= max {
      LoweredRemainder(temp, step, n);
      RemainderSmall(Lowered(temp, step, n), step);
    }
    if temp % step <= max {
      var n := LoweredDown(temp, step);
    }
  }

  /** Where the loop ends: the first value, going down, that is within the limit. */
  function Landing(temp: u32, step: nat, max: u32): (r: u32)
    requires Step(step) && temp % step <= max
    ensures r <= max && r <= temp && r % step == temp % step && (temp > max ==> r + step > max)
    decreases temp
  {
    RemainderSmall(temp, step);
    SameRemainder(temp, step);
    if temp <= max then temp else Landing(temp - step, step, max)
  }

  lemma SameLow(val: u32, step: nat, b: nat)
    requires Step(step) && b < 256
    ensures WithByte(val, step, b) % step == val % step
  {
    var hi, lo := Digits(val, step);
    hide ByteOf, Rest;
    LowPart(hi * 256 + ByteOf(val, step), step, lo);
    LowPart(hi * 256 + b, step, lo);
    Distribute(hi, ByteOf(val, step), step);
    Distribute(hi, b, step);
    ByteIs(val, step, hi, ByteOf(val, step), lo);
  }

  lemma LowPart(q: nat, step: nat, lo: nat)
    requires Step(step) && lo < step
    ensures (q * step + lo) % step == lo
  {
    Quotient(step, q, lo);
    Parts(q * step + lo, step);
  }

  // ----- one press

  /** A press yields a number, or the loop never ends. */
  datatype Result = Value(val: u32) | Never

  /** Only the byte selected takes part; its neighbours stay, whatever the loop makes of
      them. */
  function PressOnce(val: u32, step: nat, max: u32, up: bool): Result
    requires Step(step)
  {
    if up then
      var b := (ByteOf(val, step) + 1) % 256;
      Value(WithByte(val, step, if WithByte(val, step, b) > max then 0 else b))
    else if val % step > max then Never
    else
      var b := (ByteOf(val, step) + 255) % 256;
      SameLow(val, step, b);
      Value(WithByte(val, step, ByteOf(Landing(WithByte(val, step, b), step, max), step)))
  }

  /** Lines 541 to 553 of ums-loader/main.c; a loop that never ends is answered instead of
      run. */
  method Press(val: u32, step: nat, max: u32, up: bool) returns (r: Result)
    requires Step(step)
    ensures r == PressOnce(val, step, max, up)
    ensures r.Never? <==> !up && forall n: nat :: Lowered(LowByteLess(val, step), step, n) > max
  {
    hide ByteOf, WithByte, Landing, Lowered, PressOnce, LowByteLess;
    NeverIs(val, step, max, up);
    var temp: u32;
    if !up {
      ByteLess(val, step);
      temp := WithByte(val, step, ByteOf((val - step) % WRAP, step));
      DownResult(val, step, max, temp);
      if temp % step > max {
        return Never;
      }
      temp := Lower(temp, step, max);
    } else {
      ByteMore(val, step);
      temp := WithByte(val, step, ByteOf((val + step) % WRAP, step));
      UpResult(val, step, max, temp);
      if temp > max {
        temp := 0;
      }
    }
    r := Value(WithByte(val, step, ByteOf(temp, step)));
  }

  lemma NeverIs(val: u32, step: nat, max: u32, up: bool)
    requires Step(step)
    ensures PressOnce(val, step, max, up).Never? <==>
      !up && forall n: nat :: Lowered(LowByteLess(val, step), step, n) > max
  {
    hide ByteOf, WithByte, Landing, Lowered, LowByteLess;
    NeverExactly(val, step, max);
  }

  lemma DownResult(val: u32, step: nat, max: u32, temp: u32)
    requires Step(step) && temp == WithByte(val, step, if ByteOf(val, step) > 0 then ByteOf(val, step) - 1 else 255)
    ensures PressOnce(val, step, max, false) ==
      if temp % step > max then Never else Value(WithByte(val, step, ByteOf(Landing(temp, step, max), step)))
  {
    hide ByteOf, WithByte, Landing;
    ByteBefore(ByteOf(val, step));
    SameLow(val, step, (ByteOf(val, step) + 255) % 256);
  }

  lemma UpResult(val: u32, step: nat, max: u32, temp: u32)
    requires Step(step) && temp == WithByte(val, step, if ByteOf(val, step) < 255 then ByteOf(val, step) + 1 else 0)
    ensures PressOnce(val, step, max, true) ==
      Value(WithByte(val, step, ByteOf(if temp > max then 0 else temp, step)))
  {
    hide ByteOf, WithByte;
    WithByteHas(val, step, if ByteOf(val, step) < 255 then ByteOf(val, step) + 1 else 0);
    ZeroByte(step);
  }

  /** The loop of lines 544 to 546, where it ends. */
  method Lower(start: u32, step: nat, max: u32) returns (temp: u32)
    requires Step(step) && start % step <= max
    ensures temp == Landing(start, step, max)
  {
    temp := start;
    while temp > max
      invariant temp % step <= max && Landing(temp, step, max) == Landing(start, step, max)
      decreases temp
    {
      RemainderSmall(temp, step);
      SameRemainder(temp, step);
      temp := temp - step;
    }
  }

  /** The value the loop starts from. */
  function LowByteLess(val: u32, step: nat): u32
    requires Step(step)
  {
    WithByte(val, step, (ByteOf(val, step) + 255) % 256)
  }

  lemma NeverExactly(val: u32, step: nat, max: u32)
    requires Step(step)
    ensures LowByteLess(val, step) % step == val % step
    ensures val % step > max <==> forall n: nat :: Lowered(LowByteLess(val, step), step, n) > max
  {
    SameLow(val, step, (ByteOf(val, step) + 255) % 256);
    LoopEndsExactly(LowByteLess(val, step), step, max);
  }

  /** Above its limit a number can hang the editor: 20 with the limit 10, and down pressed
      on the second byte. */
  lemma NeverExample()
    ensures PressOnce(20, 0x100, 10, false) == Never
    ensures forall n: nat :: Lowered(LowByteLess(20, 0x100), 0x100, n) > 10
  {
    NeverExactly(20, 0x100, 10);
  }

  /** Within the limit every press ends, on the circle of values within it. */
  lemma OnTheCircle(val: u32, step: nat, max: u32, up: bool)
    requires Step(step) && val <= max
    ensures PressOnce(val, step, max, up) == Value(if up then Up(val, step, max) else Down(val, step, max))
    ensures Up(val, step, max) <= max && Down(val, step, max) <= max
  {
    StaysWithin(val, step, max);
    hide PressOnce, Up, Down;
    if up {
      UpOnTheCircle(val, step, max);
    } else {
      DownOnTheCircle(val, step, max);
    }
  }

  lemma UpOnTheCircle(val: u32, step: nat, max: u32)
    requires Step(step) && val <= max
    ensures PressOnce(val, step, max, true) == Value(Up(val, step, max))
  {
    hide ByteOf, WithByte, Largest;
    UpStep(val, step, max, ByteOf(val, step));
    LargestByte(val, step, max);
  }

  lemma DownOnTheCircle(val: u32, step: nat, max: u32)
    requires Step(step) && val <= max
    ensures PressOnce(val, step, max, false) == Value(Down(val, step, max))
  {
    hide ByteOf, WithByte, Largest, Landing, Step;
    RemainderSmall(val, step);
    ByteBefore(ByteOf(val, step));
    LandsOnTheCircle(val, step, max, ByteOf(val, step));
  }

  lemma ByteBefore(b: nat)
    requires b < 256
    ensures (b + 255) % 256 == if b > 0 then b - 1 else 255
  {
  }

  lemma LandsOnTheCircle(val: u32, step: nat, max: u32, b: nat)
    requires Step(step) && val <= max && b == ByteOf(val, step)
    ensures var c := if b > 0 then b - 1 else 255;
      WithByte(val, step, c) % step <= max &&
      ByteOf(Landing(WithByte(val, step, c), step, max), step) == if b > 0 then b - 1 else Largest(val, step, max)
  {
    hide ByteOf, WithByte, Largest, Landing, Step;
    RemainderSmall(val, step);
    if b > 0 {
      SameLow(val, step, b - 1);
      Own(val, step);
      Smaller(val, step, b - 1, b);
      LandingStays(WithByte(val, step, b - 1), step, max);
      WithByteHas(val, step, b - 1);
    } else {
      SameLow(val, step, 255);
      LargestByte(val, step, max);
      LandingLargest(val, step, max, 255);
      WithByteHas(val, step, Largest(val, step, max));
    }
  }

  lemma LargestByte(val: u32, step: nat, max: u32)
    requires Step(step) && val <= max
    ensures ByteOf(val, step) <= Largest(val, step, max) < 256
  {
  }

  lemma LandingStays(temp: u32, step: nat, max: u32)
    requires Step(step) && temp % step <= max && temp <= max
    ensures Landing(temp, step, max) == temp
  {
  }

  lemma {:induction false} LandingLargest(val: u32, step: nat, max: u32, c: nat)
    requires Step(step) && val <= max && Largest(val, step, max) <= c < 256
    ensures WithByte(val, step, c) % step <= max
    ensures Landing(WithByte(val, step, c), step, max) == WithByte(val, step, Largest(val, step, max))
    decreases c
  {
    hide ByteOf, WithByte, Largest;
    SameLow(val, step, c);
    RemainderSmall(val, step);
    var k := Largest(val, step, max);
    LargestIs(val, step, max);
    if c > k {
      Smaller(val, step, k + 1, c);
      LessByte(val, step, c);
      LandingLargest(val, step, max, c - 1);
    }
  }

  lemma LargestIs(val: u32, step: nat, max: u32)
    requires Step(step) && val <= max
    ensures var k := Largest(val, step, max);
      k < 256 && WithByte(val, step, k) <= max && (k < 255 ==> WithByte(val, step, k + 1) > max)
  {
  }

  lemma LessByte(val: u32, step: nat, c: nat)
    requires Step(step) && 0 < c < 256
    ensures WithByte(val, step, c) == WithByte(val, step, c - 1) + step
  {
    assert (c - 1) * step == c * step - step;
  }

  lemma ZeroByte(step: nat)
    requires Step(step)
    ensures ByteOf(0, step) == 0
  {
  }

  lemma ByteLess(val: u32, step: nat)
    requires Step(step)
    ensures ByteOf((val - step) % WRAP, step) == if ByteOf(val, step) > 0 then ByteOf(val, step) - 1 else 255
  {
    if step == 0x100 { Less8(val); }
    if step == 0x1_0000 { Less16(val); }
    if step == 0x100_0000 { Less24(val); }
    DigitLess(val / step, Quotients(step));
  }

  lemma ByteMore(val: u32, step: nat)
    requires Step(step)
    ensures ByteOf((val + step) % WRAP, step) == if ByteOf(val, step) < 255 then ByteOf(val, step) + 1 else 0
  {
    if step == 0x100 { More8(val); }
    if step == 0x1_0000 { More16(val); }
    if step == 0x100_0000 { More24(val); }
    DigitMore(val / step, Quotients(step));
  }

  /** `WRAP / step` */
  function Quotients(step: nat): nat
    requires Step(step)
  {
    if step == 1 then WRAP else if step == 0x100 then 0x100_0000 else if step == 0x1_0000 then 0x1_0000 else 0x100
  }

  lemma Less8(val: u32)
    ensures (val - 0x100) % WRAP / 0x100 == (val / 0x100 - 1) % 0x100_0000
  {
  }

  lemma Less16(val: u32)
    ensures (val - 0x1_0000) % WRAP / 0x1_0000 == (val / 0x1_0000 - 1) % 0x1_0000
  {
  }

  lemma Less24(val: u32)
    ensures (val - 0x100_0000) % WRAP / 0x100_0000 == (val / 0x100_0000 - 1) % 0x100
  {
  }

  lemma More8(val: u32)
    ensures (val + 0x100) % WRAP / 0x100 == (val / 0x100 + 1) % 0x100_0000
  {
  }

  lemma More16(val: u32)
    ensures (val + 0x1_0000) % WRAP / 0x1_0000 == (val / 0x1_0000 + 1) % 0x1_0000
  {
  }

  lemma More24(val: u32)
    ensures (val + 0x100_0000) % WRAP / 0x100_0000 == (val / 0x100_0000 + 1) % 0x100
  {
  }

  lemma DigitLess(q: int, n: int)
    requires n in {0x100, 0x1_0000, 0x100_0000, WRAP} && 0 <= q < n
    ensures (q - 1) % n % 256 == if q % 256 > 0 then q % 256 - 1 else 255
  {
  }

  lemma DigitMore(q: int, n: int)
    requires n in {0x100, 0x1_0000, 0x100_0000, WRAP} && 0 <= q < n
    ensures (q + 1) % n % 256 == if q % 256 < 255 then q % 256 + 1 else 0
  {
  }

  lemma UpStep(val: u32, step: nat, max: u32, b: nat)
    requires Step(step) && val <= max && b == ByteOf(val, step)
    ensures b < Largest(val, step, max) <==> b < 255 && WithByte(val, step, b + 1) <= max
    ensures WithByte(val, step, 0) <= max
  {
    var k := Largest(val, step, max);
    Own(val, step);
    Smaller(val, step, 0, b);
    if b < k { Smaller(val, step, b + 1, k); }
  }

  // ----- a whole session

  const STEPS := [0x100_0000, 0x1_0000, 0x100, 1]

  /** The presses made while one byte is selected. */
  function Pressed(val: u32, step: nat, max: u32, ups: seq<bool>): Result
    requires Step(step)
    decreases |ups|
  {
    if ups == [] then Value(val)
    else match PressOnce(val, step, max, ups[0])
      case Never => Never
      case Value(v) => Pressed(v, step, max, ups[1..])
  }

  /** Byte after byte, the most significant first. */
  function Selected(val: u32, max: u32, session: seq<seq<bool>>, i: nat): Result
    requires i <= 4 == |session|
    decreases 4 - i
  {
    if i == 4 then Value(val)
    else match Pressed(val, STEPS[i], max, session[i])
      case Never => Never
      case Value(v) => Selected(v, max, session, i + 1)
  }

  /** `ums_sub_storage_u32_selector`, given which volume button was seen how often before
      the power button moved on to the next byte. */
  method Select(initial: u32, max: u32, session: seq<seq<bool>>) returns (r: Result)
    requires |session| == 4
    ensures r == Selected(initial, max, session, 0)
    ensures initial <= max ==> r.Value? && r.val <= max
  {
    hide PressOnce;
    SelectedWithin(initial, max, session, 0);
    var val: u32 := initial;
    for i := 0 to 4
      invariant Selected(val, max, session, i) == Selected(initial, max, session, 0)
    {
      ghost var v := val;
      for j := 0 to |session[i]|
        invariant Pressed(val, STEPS[i], max, session[i][j..]) == Pressed(v, STEPS[i], max, session[i])
      {
        ghost var rest := session[i][j..];
        assert rest[0] == session[i][j] && rest[1..] == session[i][j + 1..];
        var p := Press(val, STEPS[i], max, session[i][j]);
        if p.Never? {
          return Never;
        }
        val := p.val;
      }
    }
    r := Value(val);
  }

  lemma {:induction false} PressedWithin(val: u32, step: nat, max: u32, ups: seq<bool>)
    requires Step(step) && val <= max
    ensures Pressed(val, step, max, ups).Value? && Pressed(val, step, max, ups).val <= max
    decreases |ups|
  {
    hide PressOnce, Up, Down;
    if ups != [] {
      OnTheCircle(val, step, max, ups[0]);
      PressedWithin(PressOnce(val, step, max, ups[0]).val, step, max, ups[1..]);
    }
  }

  /** A session that starts within the limit ends, and stays within it. */
  lemma {:induction false} SelectedWithin(val: u32, max: u32, session: seq<seq<bool>>, i: nat)
    requires i <= 4 == |session|
    ensures val <= max ==> Selected(val, max, session, i).Value? && Selected(val, max, session, i).val <= max
    decreases 4 - i
  {
    hide Pressed;
    if i < 4 && val <= max {
      PressedWithin(val, STEPS[i], max, session[i]);
      SelectedWithin(Pressed(val, STEPS[i], max, session[i]).val, max, session, i + 1);
    }
  }

  /** Presses change the selected byte only. */
  lemma {:induction false} PressedRest(val: u32, step: nat, max: u32, ups: seq<bool>)
    requires Step(step) && Pressed(val, step, max, ups).Value?
    ensures Rest(Pressed(val, step, max, ups).val, step) == Rest(val, step)
    decreases |ups|
  {
    hide PressOnce, Rest;
    if ups != [] {
      PressedOnceRest(val, step, max, ups[0]);
      PressedRest(PressOnce(val, step, max, ups[0]).val, step, max, ups[1..]);
    }
  }

  lemma PressedOnceRest(val: u32, step: nat, max: u32, up: bool)
    requires Step(step) && PressOnce(val, step, max, up).Value?
    ensures Rest(PressOnce(val, step, max, up).val, step) == Rest(val, step)
  {
    hide Rest, WithByte, ByteOf;
    var b := if up then (ByteOf(val, step) + 1) % 256 else 0;
    WithByteHas(val, step, b);
    WithByteHas(val, step, 0);
    if !up {
      SameLow(val, step, (ByteOf(val, step) + 255) % 256);
      WithByteHas(val, step, ByteOf(Landing(LowByteLess(val, step), step, max), step));
    }
  }

  /** The bytes are selected from the most significant to the least: presses in the part `i`
      of a session alone leave all bytes but that of weight 256^(3 - i). */
  lemma OneByteSession(val: u32, max: u32, session: seq<seq<bool>>, i: nat)
    requires |session| == 4 && i < 4 && forall j | 0 <= j < 4 && j != i :: session[j] == []
    ensures var step := if i == 0 then 0x100_0000 else if i == 1 then 0x1_0000 else if i == 2 then 0x100 else 1;
      Selected(val, max, session, 0) == Pressed(val, step, max, session[i]) &&
      (Pressed(val, step, max, session[i]).Value? ==>
         Rest(Pressed(val, step, max, session[i]).val, step) == Rest(val, step))
  {
    hide PressOnce;
    var step := STEPS[i];
    if Pressed(val, step, max, session[i]).Value? {
      PressedRest(val, step, max, session[i]);
      SkipsEmpty(Pressed(val, step, max, session[i]).val, max, session, i + 1, 4);
    }
    SkipsEmpty(val, max, session, 0, i);
    assert Selected(val, max, session, 0) == Selected(val, max, session, i);
  }

  lemma {:induction false} SkipsEmpty(val: u32, max: u32, session: seq<seq<bool>>, i: nat, k: nat)
    requires i <= k <= 4 == |session| && forall j | i <= j < k :: session[j] == []
    ensures Selected(val, max, session, i) == Selected(val, max, session, k)
    decreases k - i
  {
    if i < k {
      assert Pressed(val, STEPS[i], max, []) == Value(val);
      SkipsEmpty(val, max, session, i + 1, k);
    }
  }

  /** In the middle of its range a press up adds one to the byte, a press down takes one
      off. */
  lemma PressAdds(val: u32, step: nat, max: u32)
    requires Step(step) && val <= max
    ensures ByteOf(val, step) < 255 && val + step <= max ==> PressOnce(val, step, max, true) == Value(val + step)
    ensures ByteOf(val, step) > 0 ==> PressOnce(val, step, max, false) == Value(val - step)
  {
    hide ByteOf, WithByte, PressOnce, Largest, Landing;
    Own(val, step);
    var b := ByteOf(val, step);
    OnTheCircle(val, step, max, true);
    OnTheCircle(val, step, max, false);
    UpStep(val, step, max, b);
    if b < 255 { LessByte(val, step, b + 1); }
    if b > 0 { LessByte(val, step, b); }
  }

  /** Opposite presses in the opposite order take back what was done to a byte. */
  lemma {:induction false} PressesUndone(val: u32, step: nat, max: u32, ups: seq<bool>)
    requires Step(step) && val <= max
    ensures var r := Pressed(val, step, max, ups);
      r.Value? && r.val <= max && Pressed(r.val, step, max, Undo(ups)) == Value(val)
    decreases |ups|
  {
    hide PressOnce, Up, Down;
    if ups != [] {
      OnTheCircle(val, step, max, ups[0]);
      UpDown(val, step, max);
      var v := PressOnce(val, step, max, ups[0]).val;
      PressesUndone(v, step, max, ups[1..]);
      PressedAppend(Pressed(v, step, max, ups[1..]).val, step, max, Undo(ups[1..]), !ups[0]);
      OnTheCircle(v, step, max, !ups[0]);
    }
  }

  function Undo(ups: seq<bool>): seq<bool> {
    if ups == [] then [] else Undo(ups[1..]) + [!ups[0]]
  }

  lemma {:induction false} PressedAppend(val: u32, step: nat, max: u32, ups: seq<bool>, up: bool)
    requires Step(step) && Pressed(val, step, max, ups).Value?
    ensures Pressed(val, step, max, ups + [up]) == PressOnce(Pressed(val, step, max, ups).val, step, max, up)
    decreases |ups|
  {
    hide PressOnce;
    if ups != [] {
      assert (ups + [up])[1..] == ups[1..] + [up];
      PressedAppend(PressOnce(val, step, max, ups[0]).val, step, max, ups[1..], up);
    } else {
      assert ups + [up] == [up] && [up][1..] == [];
    }
  }
}
