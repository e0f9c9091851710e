/** Machine integer types of the C code and its bit operations on unsigned
    numbers, each defined by halving or doubling so that every fact about
    them is a linear induction. */
module Arith {

  /** `uint8_t` */
  type byte = x: int | 0 <= x < 0x100
  /** `uint8_t` used as a length */
  type u8 = x: int | 0 <= x < 0x100
  /** `uint32_t` */
  type u32 = x: int | 0 <= x < 0x1_0000_0000
  /** `int32_t` */
  type i32 = x: int | -0x8000_0000 <= x < 0x8000_0000

  function Pow2(n: nat): (r: nat)
    ensures r >= 1
  {
    if n == 0 then 1 else 2 * Pow2(n - 1)
  }

  /** `n >> k` */
  function Shr(n: nat, k: nat): nat
  {
    if k == 0 then n else Shr(n / 2, k - 1)
  }

  /** `n << k`, in unbounded arithmetic */
  function Shl(n: nat, k: nat): nat
  {
    if k == 0 then n else 2 * Shl(n, k - 1)
  }

  /** `n & ((1 << k) - 1)`: the low k bits of n */
  function Low(n: nat, k: nat): (r: nat)
    ensures r < Pow2(k)
  {
    if k == 0 then 0 else n % 2 + 2 * Low(n / 2, k - 1)
  }

  function Min(a: int, b: int): int { if a <= b then a else b }

  /** `a | b`, bit by bit from the low end */
  function Or(a: nat, b: nat): nat
    decreases a + b
  {
    if a == 0 then b
    else if b == 0 then a
    else 2 * Or(a / 2, b / 2) + (if a % 2 == 1 || b % 2 == 1 then 1 else 0)
  }

  /** `a & b`, bit by bit from the low end */
  function And(a: nat, b: nat): nat
    decreases a + b
  {
    if a == 0 || b == 0 then 0
    else 2 * And(a / 2, b / 2) + (if a % 2 == 1 && b % 2 == 1 then 1 else 0)
  }

  lemma Pow2Values()
    ensures Pow2(4) == 16 && Pow2(8) == 0x100 && Pow2(24) == 0x100_0000
    ensures Pow2(28) == 0x1000_0000 && Pow2(31) == 0x8000_0000 && Pow2(32) == 0x1_0000_0000
  {
    assert Pow2(4) == 16;
    assert Pow2(8) == 0x100;
    assert Pow2(12) == 0x1000;
    assert Pow2(16) == 0x1_0000;
    assert Pow2(20) == 0x10_0000;
    assert Pow2(24) == 0x100_0000;
    assert Pow2(28) == 0x1000_0000;
  }

  lemma {:induction false} Pow2Mono(a: nat, b: nat)
    requires a <= b
    ensures Pow2(a) <= Pow2(b)
  {
    if a < b {
      Pow2Mono(a, b - 1);
    }
  }

  /** A value below 2^w, w <= 32, fits in a `uint32_t`. */
  lemma Pow2U32(w: nat)
    requires w <= 32
    ensures Pow2(w) <= 0x1_0000_0000
  {
    Pow2Mono(w, 32);
    Pow2Values();
  }

  lemma {:induction false} Pow2Add(a: nat, b: nat)
    ensures Pow2(a) * Pow2(b) == Pow2(a + b)
  {
    if a > 0 {
      Pow2Add(a - 1, b);
    }
  }

  /** Bit b of a number below 2^(b + 1) is set exactly when the number is at least 2^b. */
  lemma {:induction false} TopBit(u: nat, b: nat, w: nat)
    requires w == b + 1 && u < Pow2(w)
    ensures Shr(u, b) % 2 == 1 <==> u >= Pow2(b)
  {
    if b > 0 {
      TopBit(u / 2, b - 1, b);
    }
  }

  lemma MulPred(a: int, q: int)
    ensures (a - 1) * q == a * q - q
  {
  }

  lemma Pow2Byte()
    ensures Pow2(8) == 0x100
  {
  }

  /** A byte shifted right by k fits in 8 - k bits. */
  lemma ShrByte(b: byte, k: nat)
    requires k <= 8
    ensures Shr(b, k) < Pow2(8 - k)
  {
    Pow2Byte();
    ShrBound(b, k, 8);
  }

  /** n is its high part shifted back up plus its low k bits. */
  lemma {:induction false} ShlShrLow(n: nat, k: nat)
    ensures n == Shl(Shr(n, k), k) + Low(n, k)
  {
    if k > 0 {
      ShlShrLow(n / 2, k - 1);
    }
  }

  /** Shifting left never makes a number smaller. */
  lemma {:induction false} ShlGrows(n: nat, k: nat)
    ensures Shl(n, k) >= n
  {
    if k > 0 {
      ShlGrows(n, k - 1);
    }
  }

  /** `n << k` is n times 2^k. */
  lemma {:induction false} ShlMul(n: nat, k: nat)
    ensures Shl(n, k) == n * Pow2(k)
  {
    if k > 0 {
      ShlMul(n, k - 1);
    }
  }

  /** The low w bits of n are its low a bits with the next w - a bits above them. */
  lemma {:induction false} LowSplit(n: nat, a: nat, w: nat)
    requires a <= w
    ensures Low(n, w) == Low(n, a) + Shl(Low(Shr(n, a), w - a), a)
  {
    if a > 0 {
      LowSplit(n / 2, a - 1, w - 1);
    }
  }

  /** Adding a multiple of 2^k leaves the low k bits alone. */
  lemma {:induction false} LowShifted(x: nat, a: nat, k: nat)
    ensures Low(x + Shl(a, k), k) == Low(x, k)
  {
    if k > 0 {
      var y := Shl(a, k - 1);
      assert (x + 2 * y) % 2 == x % 2 && (x + 2 * y) / 2 == x / 2 + y;
      LowShifted(x / 2, a, k - 1);
    }
  }

  lemma {:induction false} ShlZero(k: nat)
    ensures Shl(0, k) == 0
  {
    if k > 0 {
      ShlZero(k - 1);
    }
  }

  lemma {:induction false} ShrShr(n: nat, a: nat, b: nat)
    ensures Shr(Shr(n, a), b) == Shr(n, a + b)
  {
    if a > 0 {
      ShrShr(n / 2, a - 1, b);
    }
  }

  /** A number below 2^w shifted right by k <= w is below 2^(w-k). */
  lemma {:induction false} ShrBound(n: nat, k: nat, w: nat)
    requires k <= w && n < Pow2(w)
    ensures Shr(n, k) < Pow2(w - k)
  {
    if k > 0 {
      ShrBound(n / 2, k - 1, w - 1);
    }
  }

  /** Masking a number that already fits leaves it unchanged. */
  lemma LowSmall(n: nat, k: nat)
    requires n < Pow2(k)
    ensures Low(n, k) == n
  {
    ShrBound(n, k, k);
    ShlShrLow(n, k);
    ShlZero(k);
  }

  /** The low bit and the rest of h + 2l, for a bit h. */
  lemma Halves(h: int, l: int)
    requires 0 <= h < 2
    ensures (h + 2 * l) % 2 == h && (h + 2 * l) / 2 == l
  {
  }

  /** The low w bits of v << o, o <= w, are the low w - o bits of v, shifted. */
  lemma {:induction false} LowShl(v: nat, o: nat, w: nat)
    requires o <= w
    ensures Low(Shl(v, o), w) == Shl(Low(v, w - o), o)
  {
    if o > 0 {
      var x := Shl(v, o);
      assert x == 0 + 2 * Shl(v, o - 1);
      Halves(0, Shl(v, o - 1));
      calc {
        Low(x, w);
        x % 2 + 2 * Low(x / 2, w - 1);
        2 * Low(Shl(v, o - 1), w - 1);
        { LowShl(v, o - 1, w - 1); }
        2 * Shl(Low(v, w - o), o - 1);
      }
    }
  }

  /** Placing a (w-k)-bit number above a k-bit one gives a w-bit number. */
  lemma {:induction false} CombineBound(lo: nat, hi: nat, k: nat, w: nat)
    requires k <= w && lo < Pow2(k) && hi < Pow2(w - k)
    ensures lo + Shl(hi, k) < Pow2(w)
  {
    if k > 0 {
      CombineBound(lo / 2, hi, k - 1, w - 1);
    }
  }

  /** `n & (1 << k)` is non-zero exactly when bit k of n is set. */
  lemma {:induction false} BitTest(n: nat, k: nat)
    ensures And(n, Shl(1, k)) != 0 <==> Shr(n, k) % 2 == 1
  {
    if k > 0 {
      var m := Shl(1, k - 1);
      ShlGrows(1, k - 1);
      Halves(0, m);
      BitTest(n / 2, k - 1);
      if n != 0 {
        assert And(n, 2 * m) == 2 * And(n / 2, m);
      }
    }
  }

  /** Or-ing the all-ones k-bit number h into a k-bit number gives h. */
  lemma {:induction false} OrOnes(x: nat, k: nat, h: nat)
    requires x < Pow2(k) && h == Pow2(k) - 1
    ensures Or(x, h) == h
  {
    if k > 0 && x != 0 {
      Halves(1, Pow2(k - 1) - 1);
      OrOnes(x / 2, k - 1, Pow2(k - 1) - 1);
    }
  }

  /** Or-ing a number shifted left by k leaves the low k bits alone and
      or-s the high parts. */
  lemma {:induction false} OrShifted(l: nat, a: nat, b: nat, k: nat)
    requires l < Pow2(k)
    ensures Or(l + Shl(a, k), Shl(b, k)) == l + Shl(Or(a, b), k)
  {
    if k > 0 {
      var a2, b2 := l / 2 + Shl(a, k - 1), Shl(b, k - 1);
      assert l + Shl(a, k) == l % 2 + 2 * a2 && Shl(b, k) == 2 * b2;
      OrDouble(l % 2, a2, b2);
      OrShifted(l / 2, a, b, k - 1);
    }
  }

  /** Or-ing two numbers doubled, the first with a low bit e added. */
  lemma OrDouble(e: nat, p: nat, q: nat)
    requires e < 2
    ensures Or(e + 2 * p, 2 * q) == e + 2 * Or(p, q)
  {
    Halves(e, p);
    Halves(0, q);
  }

  /** The low k bits of the n-bit all-ones number c are the k-bit
      all-ones number h. */
  lemma {:induction false} LowOnes(c: nat, n: nat, k: nat, h: nat)
    requires k <= n && c == Pow2(n) - 1 && h == Pow2(k) - 1
    ensures Low(c, k) == h
  {
    if k > 0 {
      Halves(1, Pow2(n - 1) - 1);
      LowOnes(Pow2(n - 1) - 1, n - 1, k - 1, Pow2(k - 1) - 1);
    }
  }

  /** Shifting l + (a << k) right by k, for l below 2^k, gives a. */
  lemma {:induction false} ShrOfShifted(l: nat, a: nat, k: nat)
    requires l < Pow2(k)
    ensures Shr(l + Shl(a, k), k) == a
  {
    if k > 0 {
      Halves(l % 2, l / 2 + Shl(a, k - 1));
      ShrOfShifted(l / 2, a, k - 1);
    }
  }
}
