/** MULHSU (section 6.1 of the RISC-V User-Level ISA v2.2): the upper half of a signed by unsigned product, by
    negation, unsigned multiplication and negation of the double-width product. */
module Mulhsu {
  import opened Bits

  /** The value of a w-bit word as a two's complement number. */
  function Signed(w: nat, x: nat): int
    requires w > 0 && x < Pow2(w)
  {
    if x < Pow2(w - 1) then x else x - Pow2(w)
  }

  /** The result the instruction is defined to have. */
  function UpperHalf(w: nat, a: nat, b: nat): int
    requires w > 0 && a < Pow2(w) && b < Pow2(w)
  {
    Signed(w, a) * b / Pow2(w) % Pow2(w)
  }

  lemma ProductBound(a: nat, b: nat, m: nat)
    requires a < m && b < m
    ensures a * b < m * m
  {
    MulMono(a, b, m);
    MulMono(m, a, m - 1);
    assert m * (m - 1) == m * m - m;
  }

  lemma MulMono(a: nat, b: nat, c: nat)
    requires b <= c
    ensures a * b <= a * c && b * a <= c * a
  {
    if b < c && a > 0 {
      MulAtLeast(c - b, a);
      assert (c - b) * a == c * a - b * a;
    }
  }

  /** Dividing the negation of h * m + l rounds down past -h unless l is zero. */
  lemma NegatedQuotient(h: int, l: int, m: int)
    requires 0 <= h < m && 0 <= l < m
    ensures -(h * m + l) / m == if l == 0 then -h else -h - 1
  {
    if l == 0 {
      DivModUnique(-(h * m + l), m, -h, 0);
    } else {
      assert -(h * m + l) == (-h - 1) * m + (m - l);
      DivModUnique(-(h * m + l), m, -h - 1, m - l);
    }
  }

  /** Reducing a number between -m and 0. */
  lemma NegativeRemainder(x: int, m: int)
    requires -m <= x < 0
    ensures x % m == if x == -m then 0 else x + m
  {
    if x == -m {
      DivModUnique(x, m, -1, 0);
    } else {
      DivModUnique(x, m, -1, x + m);
    }
  }

  /** doNEG128H, for halves of w bits: negate rH:rL and return the upper half. */
  method NegateHigh(w: nat, rL: nat, rH: nat) returns (r: nat)
    requires rL < Pow2(w) && rH < Pow2(w)
    ensures r < Pow2(w) && r == -(rH * Pow2(w) + rL) / Pow2(w) % Pow2(w)
  {
    var h := Not(w, rH);
    var l := Not(w, rL);
    l := if l + 1 == Pow2(w) then 0 else l + 1;
    if l == 0 {
      h := if h + 1 == Pow2(w) then 0 else h + 1;
    }
    r := h;
    NegatedQuotient(rH, rL, Pow2(w));
    var q := if rL == 0 then 0 - rH else 0 - rH - 1;
    if q < 0 {
      NegativeRemainder(q, Pow2(w));
    }
  }

  /** The same by one negation of the double-width word, as for w = 32. */
  method NegateWide(w: nat, rL: nat, rH: nat) returns (r: nat)
    requires rL < Pow2(w) && rH < Pow2(w)
    ensures r < Pow2(w) && r == -(rH * Pow2(w) + rL) / Pow2(w) % Pow2(w)
  {
    var m := Pow2(w);
    var p := rH * m + rL;
    WideBound(rH, rL, m);
    var n := if p == 0 then 0 else m * m - p;
    NegatedQuotient(rH, rL, m);
    if p == 0 {
      ZeroHalves(rH, rL, m);
      r := 0;
    } else if rL == 0 {
      assert n == (m - rH) * m;
      DivModUnique(n, m, m - rH, 0);
      PositiveHigh(rH, m);
      r := n / m;
      NegativeRemainder(0 - rH, m);
    } else {
      assert n == (m - 1 - rH) * m + (m - rL);
      DivModUnique(n, m, m - 1 - rH, m - rL);
      r := n / m;
      NegativeRemainder(0 - rH - 1, m);
    }
  }

  lemma WideBound(h: nat, l: nat, m: nat)
    requires h < m && l < m
    ensures h * m + l < m * m
  {
    MulMono(m, h, m - 1);
    assert (m - 1) * m == m * m - m;
  }

  lemma ZeroHalves(h: nat, l: nat, m: nat)
    requires m > 0 && h * m + l == 0
    ensures h == 0 && l == 0
  {
    if h > 0 {
      MulAtLeast(h, m);
    }
  }

  lemma PositiveHigh(h: nat, m: nat)
    requires h * m + 0 != 0
    ensures h > 0
  {
  }

  lemma SplitProduct(p: nat, m: nat)
    requires m > 0 && p < m * m
    ensures p / m < m && p % m < m && p == p / m * m + p % m
  {
    if p / m >= m {
      MulMono(m, m, p / m);
      assert false;
    }
  }

  /** The magnitude of a negative operand times the other operand is the negated product. */
  lemma NegatedProduct(w: nat, a: nat, b: nat)
    requires w > 0 && Pow2(w - 1) <= a < Pow2(w)
    ensures Signed(w, a) * b == -(Neg(w, a) * b)
  {
    MulNegated(Neg(w, a), b);
  }

  lemma MulNegated(t: int, b: int)
    ensures (0 - t) * b == 0 - t * b
  {
  }

  lemma SmallRemainder(x: nat, m: nat)
    requires x < m
    ensures x % m == x
  {
  }

  lemma Halves(p: nat, m: nat, h: nat, l: nat)
    requires m > 0 && p < m * m && h == p / m && l == p % m
    ensures h < m && l < m && p == h * m + l && h == p / m % m
  {
    SplitProduct(p, m);
    SmallRemainder(h, m);
  }

  /** Multiply without sign into two halves below m. */
  method MulHalves(m: nat, a: nat, b: nat) returns (h: nat, l: nat)
    requires a < m && b < m
    ensures h < m && l < m && a * b == h * m + l && h == a * b / m % m
  {
    var p := a * b;
    ProductBound(a, b, m);
    h, l := p / m, p % m;
    Halves(p, m, h, l);
  }

  /** emitMULHSU; wide says that the product fits a register that can be negated at once (w = 32). */
  method EmitMulhsu(w: nat, wide: bool, rs1: nat, rs2: nat) returns (rd: nat)
    requires w > 0 && rs1 < Pow2(w) && rs2 < Pow2(w)
    ensures rd == UpperHalf(w, rs1, rs2)
  {
    var flag := rs1 >= Pow2(w - 1);
    var temprs1 := rs1;
    if flag {
      temprs1 := Neg(w, temprs1);
    }
    var resultH, resultL := MulHalves(Pow2(w), temprs1, rs2);
    if flag {
      NegatedProduct(w, rs1, rs2);
      if wide {
        resultH := NegateWide(w, resultL, resultH);
      } else {
        resultH := NegateHigh(w, resultL, resultH);
      }
    }
    rd := resultH;
  }
}
