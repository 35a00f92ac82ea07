/** Bit-level arithmetic on natural numbers: the exclusive or, single bits and
    parity of C's unsigned words, without bit-vectors. */
module Bits {
  type u32 = x: int | 0 <= x < 0x1_0000_0000
  type u8 = x: int | 0 <= x < 0x100

  /** Arithmetic on 32-bit words is modulo this. */
  const WRAP := 0x1_0000_0000

  function Pow2(k: nat): (r: nat)
    ensures r > 0
  {
    if k == 0 then 1 else 2 * Pow2(k - 1)
  }

  function Xor(a: nat, b: nat): nat
    decreases a + b
  {
    if a == 0 && b == 0 then 0
    else (if a % 2 != b % 2 then 1 else 0) + 2 * Xor(a / 2, b / 2)
  }

  /** `(a >> k) & 1` */
  predicate Bit(a: nat, k: nat) {
    if k == 0 then a % 2 == 1 else Bit(a / 2, k - 1)
  }

  /** The exclusive or of all bits of `a`. */
  predicate Parity(a: nat) {
    if a == 0 then false else (a % 2 == 1) != Parity(a / 2)
  }

  lemma {:induction false} XorUnit(a: nat)
    ensures Xor(a, 0) == a == Xor(0, a)
  {
    if a > 0 { XorUnit(a / 2); }
  }

  lemma {:induction false} XorComm(a: nat, b: nat)
    ensures Xor(a, b) == Xor(b, a)
    decreases a + b
  {
    if a + b > 0 { XorComm(a / 2, b / 2); }
  }

  lemma XorHalf(a: nat, b: nat)
    ensures Xor(a, b) / 2 == Xor(a / 2, b / 2)
    ensures Xor(a, b) % 2 == if a % 2 != b % 2 then 1 else 0
  {
  }

  lemma {:induction false} XorAssoc(a: nat, b: nat, c: nat)
    ensures Xor(Xor(a, b), c) == Xor(a, Xor(b, c))
    decreases a + b + c
  {
    if a + b + c > 0 {
      XorAssoc(a / 2, b / 2, c / 2);
      XorHalf(a, b);
      XorHalf(b, c);
      XorHalf(Xor(a, b), c);
      XorHalf(a, Xor(b, c));
    }
  }

  lemma {:induction false} XorSelf(a: nat)
    ensures Xor(a, a) == 0
  {
    if a > 0 { XorSelf(a / 2); }
  }

  /** An exclusive or is undone by applying it again. */
  lemma XorCancel(a: nat, b: nat)
    ensures Xor(Xor(a, b), b) == a
  {
    XorAssoc(a, b, b);
    XorSelf(b);
    XorUnit(a);
  }

  lemma XorZero(a: nat, b: nat)
    ensures Xor(a, b) == 0 <==> a == b
  {
    if a == b {
      XorSelf(a);
    } else if Xor(a, b) == 0 {
      XorCancel(a, b);
      XorUnit(b);
    }
  }

  lemma {:induction false} XorBound(a: nat, b: nat, k: nat)
    requires a < Pow2(k) && b < Pow2(k)
    ensures Xor(a, b) < Pow2(k)
  {
    if k > 0 && a + b > 0 { XorBound(a / 2, b / 2, k - 1); }
  }

  lemma Pow2Values()
    ensures Pow2(4) == 0x10 && Pow2(8) == 0x100 && Pow2(12) == 0x1000 && Pow2(15) == 0x8000 && Pow2(16) == 0x1_0000
    ensures Pow2(20) == 0x10_0000 && Pow2(25) == 0x200_0000 && Pow2(32) == 0x1_0000_0000
  {
    assert Pow2(4) == 0x10;
    assert Pow2(8) == 0x100;
    assert Pow2(12) == 0x1000;
    assert Pow2(15) == 0x8000;
    assert Pow2(20) == 0x10_0000;
    assert Pow2(25) == 0x200_0000;
    assert Pow2(28) == 0x1000_0000;
  }

  lemma {:induction false} Pow2Mono(j: nat, k: nat)
    requires j < k
    ensures 2 * Pow2(j) <= Pow2(k)
  {
    if j + 1 < k { Pow2Mono(j, k - 1); }
  }

  lemma {:induction false} Pow2Add(j: nat, k: nat)
    ensures Pow2(j + k) == Pow2(j) * Pow2(k)
  {
    if j > 0 {
      Pow2Add(j - 1, k);
      assert 2 * (Pow2(j - 1) * Pow2(k)) == Pow2(j) * Pow2(k);
    }
  }

  lemma {:induction false} BitXor(a: nat, b: nat, k: nat)
    ensures Bit(Xor(a, b), k) == (Bit(a, k) != Bit(b, k))
    decreases k
  {
    if k == 0 {
    } else {
      BitXor(a / 2, b / 2, k - 1);
      assert Xor(a, b) / 2 == Xor(a / 2, b / 2);
    }
  }

  lemma BitZero(k: nat)
    ensures !Bit(0, k)
  {
  }

  lemma {:induction false} BitPow2(j: nat, k: nat)
    ensures Bit(Pow2(j), k) == (j == k)
    decreases k
  {
    if j == 0 {
      if k > 0 { BitZero(k - 1); }
    } else if k > 0 {
      BitPow2(j - 1, k - 1);
    }
  }

  lemma {:induction false} BitHigh(a: nat, n: nat, k: nat)
    requires a < Pow2(n) && n <= k
    ensures !Bit(a, k)
  {
    if n == 0 {
      BitZero(k);
    } else {
      BitHigh(a / 2, n - 1, k - 1);
    }
  }

  lemma {:induction false} BitTop(a: nat, n: nat)
    requires a < Pow2(n + 1)
    ensures Bit(a, n) <==> a >= Pow2(n)
  {
    if n > 0 { BitTop(a / 2, n - 1); }
  }

  /** `Bit(a >> n, k)` */
  lemma {:induction false} BitDiv(a: nat, n: nat, k: nat, q: nat)
    requires q == a / Pow2(n)
    ensures Bit(q, k) == Bit(a, n + k)
    decreases n
  {
    if n > 0 {
      DivDiv(a, n);
      BitDiv(a / 2, n - 1, k, q);
    }
  }

  lemma DivDiv(a: nat, n: nat)
    requires n > 0
    ensures a / Pow2(n) == (a / 2) / Pow2(n - 1)
  {
    var p, q := Pow2(n - 1), a / 2;
    var d, m := q / p, q % p;
    assert q == d * p + m;
    assert a == (2 * p) * d + (2 * m + a % 2);
    DivUnique(a, 2 * p, d, 2 * m + a % 2);
  }

  lemma DivUnique(a: nat, b: nat, q: nat, r: nat)
    requires r < b && a == b * q + r
    ensures a / b == q && a % b == r
  {
    var q', r' := a / b, a % b;
    assert b * (q - q') == r' - r;
    if q' < q {
      MulGrows(b, q - q');
    } else if q < q' {
      MulGrows(b, q' - q);
    }
  }

  lemma MulGrows(b: nat, k: nat)
    requires k > 0
    ensures b * k >= b
  {
  }

  /** Bits of the low `n` bits of `a`. */
  lemma {:induction false} BitMod(a: nat, n: nat, k: nat)
    ensures Bit(a % Pow2(n), k) == (k < n && Bit(a, k))
    decreases n
  {
    if n == 0 {
      BitZero(k);
    } else {
      ModHalf(a, n);
      if k > 0 { BitMod(a / 2, n - 1, k - 1); }
    }
  }

  lemma ModHalf(a: nat, n: nat)
    requires n > 0
    ensures a % Pow2(n) == 2 * ((a / 2) % Pow2(n - 1)) + a % 2
  {
    var p, q := Pow2(n - 1), a / 2;
    var d, m := q / p, q % p;
    assert q == d * p + m;
    assert a == (2 * p) * d + (2 * m + a % 2);
    DivUnique(a, 2 * p, d, 2 * m + a % 2);
  }

  lemma {:induction false} BitShift(a: nat, n: nat, k: nat)
    ensures Bit(a * Pow2(n), k) == (k >= n && Bit(a, k - n))
    decreases n
  {
    if n > 0 {
      assert a * Pow2(n) == 2 * (a * Pow2(n - 1));
      if k > 0 { BitShift(a, n - 1, k - 1); }
    }
  }

  /** Two words with the same bits are the same word. */
  lemma {:induction false} BitsDetermine(a: nat, b: nat, n: nat)
    requires a < Pow2(n) && b < Pow2(n)
    requires forall k | 0 <= k < n :: Bit(a, k) == Bit(b, k)
    ensures a == b
  {
    if n > 0 {
      forall k | 0 <= k < n - 1 ensures Bit(a / 2, k) == Bit(b / 2, k) {
        assert Bit(a, k + 1) == Bit(b, k + 1);
      }
      BitsDetermine(a / 2, b / 2, n - 1);
      assert Bit(a, 0) == Bit(b, 0);
    }
  }

  /** Parity is linear. */
  lemma {:induction false} ParityXor(a: nat, b: nat)
    ensures Parity(Xor(a, b)) == (Parity(a) != Parity(b))
    decreases a + b
  {
    if a + b > 0 {
      ParityXor(a / 2, b / 2);
      assert Xor(a, b) / 2 == Xor(a / 2, b / 2);
    }
  }

  lemma {:induction false} ParityPow2(k: nat)
    ensures Parity(Pow2(k))
  {
    if k > 0 { ParityPow2(k - 1); }
  }

  lemma {:induction false} ParitySplit(a: nat, k: nat, lo: nat, hi: nat)
    requires lo < Pow2(k) && a == hi * Pow2(k) + lo
    ensures Parity(a) == (Parity(lo) != Parity(hi))
    decreases k
  {
    hide Parity;
    if k == 0 {
      NoParity();
    } else {
      var x := hi * Pow2(k - 1);
      DoubleProduct(hi, Pow2(k - 1));
      HalfSum(a, x, lo);
      ParitySplit(a / 2, k - 1, lo / 2, hi);
      ParityHalves(a, lo / 2, hi);
    }
  }

  lemma NoParity()
    ensures !Parity(0)
  {
  }

  lemma DoubleProduct(a: nat, b: nat)
    ensures a * (2 * b) == 2 * (a * b)
  {
  }

  lemma HalfSum(a: nat, x: nat, lo: nat)
    requires a == 2 * x + lo
    ensures a / 2 == x + lo / 2 && a % 2 == lo % 2 && lo == 2 * (lo / 2) + a % 2
  {
  }

  lemma ParityHalves(a: nat, lo: nat, hi: nat)
    requires Parity(a / 2) == (Parity(lo) != Parity(hi))
    ensures Parity(a) == (Parity(2 * lo + a % 2) != Parity(hi))
  {
    ParityJoin(lo, a % 2);
    assert a == 2 * (a / 2) + a % 2;
    ParityJoin(a / 2, a % 2);
  }

  lemma ParityJoin(m: nat, b: nat)
    requires b < 2
    ensures Parity(2 * m + b) == ((b == 1) != Parity(m))
  {
    assert (2 * m + b) / 2 == m;
  }

  /** Folding the high part of a word onto its low part keeps the parity. */
  lemma ParityFold(a: nat, k: nat, lo: nat, hi: nat)
    requires lo < Pow2(k) && a == hi * Pow2(k) + lo
    ensures Parity(Xor(lo, hi)) == Parity(a)
  {
    ParityXor(lo, hi);
    ParitySplit(a, k, lo, hi);
  }

  /** `a ^ b` on 32-bit words. */
  function Xor32(a: u32, b: u32): (r: u32)
    ensures r == Xor(a, b)
  {
    Pow2Values();
    XorBound(a, b, 32);
    Xor(a, b)
  }
}
