/** Machine words as natural numbers: the bitwise operators of the source, defined
    bit by bit, and the arithmetic they amount to on the masks the source uses. */
module Bits {

  function Pow2(k: nat): (r: nat)
    ensures r > 0
  {
    if k == 0 then 1 else 2 * Pow2(k - 1)
  }

  function And(x: nat, y: nat): nat {
    if x == 0 || y == 0 then 0
    else (if x % 2 == 1 && y % 2 == 1 then 1 else 0) + 2 * And(x / 2, y / 2)
  }

  function Or(x: nat, y: nat): nat {
    if x == 0 then y else if y == 0 then x
    else (if x % 2 == 1 || y % 2 == 1 then 1 else 0) + 2 * Or(x / 2, y / 2)
  }

  /** ~x in a word of w bits. */
  function Not(w: nat, x: nat): (r: nat)
    requires x < Pow2(w)
    ensures r < Pow2(w)
  {
    Pow2(w) - 1 - x
  }

  /** -x in a word of w bits. */
  function Neg(w: nat, x: nat): (r: nat)
    requires x < Pow2(w)
    ensures r < Pow2(w)
  {
    if x == 0 then 0 else Pow2(w) - x
  }

  /** The low k bits of x: x mod 2^k (LowIsRemainder). */
  function Low(x: nat, k: nat): (r: nat)
    ensures r < Pow2(k) && r <= x
    decreases k
  {
    if k == 0 then 0 else x % 2 + 2 * Low(x / 2, k - 1)
  }

  /** x rounded down to a multiple of 2^k. */
  function Floor(x: nat, k: nat): nat {
    x - Low(x, k)
  }

  /** x >> k */
  function Shr(x: nat, k: nat): nat
    decreases k
  {
    if k == 0 then x else Shr(x / 2, k - 1)
  }

  /** The number of consecutive one bits of x, starting at bit 0. */
  function TrailingOnes(x: nat): nat {
    if x % 2 == 0 then 0 else 1 + TrailingOnes(x / 2)
  }

  // ---- 64-bit words ----

  /** 2^64 */
  const WORD: nat := 0x1_0000_0000_0000_0000

  function Not64(x: nat): (r: nat)
    requires x < WORD
    ensures r < WORD
  {
    WORD - 1 - x
  }

  function Neg64(x: nat): (r: nat)
    requires x < WORD
    ensures r < WORD
  {
    if x == 0 then 0 else WORD - x
  }

  // ---- Powers of two ----

  lemma WordIsPow2()
    ensures Pow2(64) == WORD
    ensures Pow2(62) * 4 == WORD
  {
    assert Pow2(8) == 256;
    Pow2Add(8, 8);
    Pow2Add(16, 16);
    Pow2Add(32, 32);
    Pow2Add(2, 62);
  }

  lemma {:induction false} Pow2Mono(a: nat, b: nat)
    requires a <= b
    ensures Pow2(a) <= Pow2(b)
    ensures a < b ==> Pow2(a) < Pow2(b)
  {
    if a < b {
      Pow2Mono(a, b - 1);
    }
  }

  lemma {:induction false} Pow2Add(a: nat, b: nat)
    ensures Pow2(a + b) == Pow2(a) * Pow2(b)
  {
    if a > 0 {
      Pow2Add(a - 1, b);
      assert Pow2(a + b) == 2 * Pow2(a - 1 + b);
    }
  }

  // ---- Low bits ----

  /** Quotient and remainder are determined by x == q * d + r with 0 <= r < d. */
  lemma DivModUnique(x: int, d: int, q: int, r: int)
    requires d > 0 && 0 <= r < d
    requires x == q * d + r
    ensures x / d == q && x % d == r
  {
    var q', r' := x / d, x % d;
    assert x == q' * d + r';
    assert (q - q') * d == r' - r;
    MulAtLeast(q - q', d);
  }

  lemma MulAtLeast(a: int, d: int)
    requires d > 0
    ensures a >= 1 ==> a * d >= d
    ensures a <= -1 ==> a * d <= -d
  {
  }

  lemma {:induction false} LowIsRemainder(x: nat, k: nat)
    ensures Low(x, k) == x % Pow2(k)
  {
    if k > 0 {
      LowIsRemainder(x / 2, k - 1);
      RemainderOfDouble(x, Pow2(k - 1));
    }
  }

  lemma RemainderOfDouble(x: nat, p: nat)
    requires p > 0
    ensures x % (2 * p) == x % 2 + 2 * ((x / 2) % p)
  {
    var q, r := (x / 2) / p, (x / 2) % p;
    assert x / 2 == q * p + r;
    assert q * (2 * p) == 2 * (q * p);
    DivModUnique(x, 2 * p, q, x % 2 + 2 * r);
  }

  lemma {:induction false} LowSmall(x: nat, k: nat)
    requires x < Pow2(k)
    ensures Low(x, k) == x
  {
    if k > 0 {
      LowSmall(x / 2, k - 1);
    }
  }

  /** A multiple of 2^b is a multiple of every smaller power of two. */
  lemma {:induction false} LowOfMultiple(x: nat, a: nat, b: nat)
    requires a <= b && Low(x, b) == 0
    ensures Low(x, a) == 0
  {
    if a > 0 {
      LowOfMultiple(x / 2, a - 1, b - 1);
    }
  }

  lemma {:induction false} LowOfFloor(x: nat, k: nat)
    ensures Low(Floor(x, k), k) == 0
  {
    if k > 0 {
      LowOfFloor(x / 2, k - 1);
      var y := Floor(x / 2, k - 1);
      assert Floor(x, k) == 2 * y;
      assert (2 * y) / 2 == y && (2 * y) % 2 == 0;
    }
  }

  /** Adding y < 2^k to a multiple of 2^k sets the low k bits to y. */
  lemma {:induction false} LowOfSum(x: nat, y: nat, k: nat)
    requires Low(x, k) == 0 && y < Pow2(k)
    ensures Low(x + y, k) == y
  {
    if k > 0 {
      LowOfSum(x / 2, y / 2, k - 1);
      assert (x + y) / 2 == x / 2 + y / 2;
    }
  }

  lemma {:induction false} LowOfNext(x: nat, k: nat)
    ensures Low(x + Pow2(k), k) == Low(x, k)
  {
    if k > 0 {
      LowOfNext(x / 2, k - 1);
      assert (x + Pow2(k)) / 2 == x / 2 + Pow2(k - 1);
    }
  }

  lemma {:induction false} ShrShr(x: nat, a: nat, b: nat)
    ensures Shr(Shr(x, a), b) == Shr(x, a + b)
  {
    if a > 0 {
      ShrShr(x / 2, a - 1, b);
    }
  }

  /** Two numbers have the same bits from k upwards exactly when they lie in the same 2^k block. */
  lemma {:induction false} SameBlock(x: nat, y: nat, k: nat)
    ensures Shr(x, k) == Shr(y, k) <==> Floor(x, k) <= y < Floor(x, k) + Pow2(k)
    ensures Shr(x, k) == Shr(y, k) ==> Floor(y, k) == Floor(x, k)
  {
    if k > 0 {
      SameBlock(x / 2, y / 2, k - 1);
      assert Floor(x, k) == 2 * Floor(x / 2, k - 1);
      assert Floor(y, k) == 2 * Floor(y / 2, k - 1);
    }
  }

  /** Shifting left by 2 shifts the low bits. */
  lemma LowOfQuadruple(x: nat, k: nat)
    ensures Low(4 * x, k + 2) == 4 * Low(x, k)
    ensures Low(4 * x + 3, k + 2) == 4 * Low(x, k) + 3
  {
    assert (4 * x) / 2 == 2 * x && (2 * x) / 2 == x;
    assert (4 * x + 3) / 2 == 2 * x + 1 && (2 * x + 1) / 2 == x;
    assert Low(2 * x, k + 1) == 2 * Low(x, k) && Low(2 * x + 1, k + 1) == 1 + 2 * Low(x, k);
  }

  /** Rounding up within a 2^k block never leaves an enclosing 2^w block. */
  lemma {:induction false} FloorBound(x: nat, k: nat, w: nat)
    requires k <= w && x < Pow2(w)
    ensures Floor(x, k) + Pow2(k) <= Pow2(w)
  {
    if k > 0 {
      FloorBound(x / 2, k - 1, w - 1);
      assert Floor(x, k) == 2 * Floor(x / 2, k - 1);
    }
  }

  lemma NotHalf(w: nat, x: nat)
    requires w > 0 && x < Pow2(w)
    ensures Not(w, x) / 2 == Not(w - 1, x / 2)
    ensures Not(w, x) % 2 == 1 - x % 2
  {
  }

  lemma {:induction false} LowOfNot(w: nat, x: nat, k: nat)
    requires k <= w && x < Pow2(w)
    ensures Low(Not(w, x), k) == Pow2(k) - 1 - Low(x, k)
  {
    if k > 0 {
      LowOfNot(w - 1, x / 2, k - 1);
      NotHalf(w, x);
    }
  }

  lemma {:induction false} LowOfTrailingOnes(x: nat)
    ensures var t := TrailingOnes(x);
            Low(x, t + 1) == Pow2(t) - 1 && Pow2(t) <= x + 1
  {
    if x % 2 == 1 {
      LowOfTrailingOnes(x / 2);
    } else {
      assert Low(x, 1) == x % 2 + 2 * Low(x / 2, 0);
    }
  }

  lemma {:induction false} EndsInOnes(x: nat, k: nat)
    requires Low(x, k) == Pow2(k) - 1
    ensures k <= TrailingOnes(x)
  {
    if k > 0 {
      EndsInOnes(x / 2, k - 1);
    }
  }

  // ---- Masks ----

  /** x & (2^k - 1) keeps the low k bits. */
  lemma {:induction false} AndLow(x: nat, k: nat)
    ensures And(x, Pow2(k) - 1) == Low(x, k)
  {
    if k == 0 {
    } else if x == 0 {
      LowSmall(0, k);
    } else {
      AndLow(x / 2, k - 1);
      assert (Pow2(k) - 1) / 2 == Pow2(k - 1) - 1;
    }
  }

  /** x & -2^k, in w bits, rounds x down to a multiple of 2^k. */
  lemma {:induction false} AndHigh(w: nat, x: nat, k: nat)
    requires k <= w && x < Pow2(w)
    ensures Pow2(k) <= Pow2(w)
    ensures And(x, Pow2(w) - Pow2(k)) == Floor(x, k)
  {
    Pow2Mono(k, w);
    if k == 0 {
      AndLow(x, w);
      LowSmall(x, w);
    } else if k == w {
      LowSmall(x, w);
    } else if x == 0 {
      LowSmall(0, k);
    } else {
      AndHigh(w - 1, x / 2, k - 1);
      assert Pow2(w) - Pow2(k) == 2 * (Pow2(w - 1) - Pow2(k - 1));
      Pow2Mono(k - 1, w - 1);
    }
  }

  /** x | (2^k - 1) moves x up to the end of its 2^k block. */
  lemma {:induction false} OrLow(x: nat, k: nat)
    ensures Or(x, Pow2(k) - 1) == Floor(x, k) + Pow2(k) - 1
  {
    if k == 0 {
    } else if x == 0 {
      LowSmall(0, k);
    } else {
      OrLow(x / 2, k - 1);
      assert (Pow2(k) - 1) / 2 == Pow2(k - 1) - 1;
    }
  }

  lemma {:induction false} AndNot(w: nat, x: nat)
    requires x < Pow2(w)
    ensures And(x, Not(w, x)) == 0
  {
    if w > 0 && x > 0 {
      AndNot(w - 1, x / 2);
      assert Not(w, x) / 2 == Not(w - 1, x / 2);
    }
  }

  /** x & -x isolates the lowest set bit. */
  lemma {:induction false} LowestBit(w: nat, x: nat, t: nat)
    requires t < w && x < Pow2(w)
    requires Low(x, t + 1) == Pow2(t)
    ensures And(x, Neg(w, x)) == Pow2(t)
  {
    if t == 0 {
      assert Low(x, 1) == x % 2 + 2 * Low(x / 2, 0);
      AndNot(w - 1, x / 2);
      assert Neg(w, x) / 2 == Not(w - 1, x / 2);
    } else {
      assert x % 2 == 0;
      LowestBit(w - 1, x / 2, t - 1);
      assert Neg(w, x) / 2 == Neg(w - 1, x / 2);
      assert Neg(w, x) % 2 == 0;
    }
  }
}
