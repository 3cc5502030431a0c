/** Integer facts shared by the barcode layout and the frame accounting:
    powers of two, the bit test, and uniqueness of quotient and remainder. */
module Arith {

  const U32: int := 0x1_0000_0000
  const U64: int := 0x1_0000_0000_0000_0000

  /** A 64-bit unsigned integer (`uint64_t`). */
  newtype uint64 = x: int | 0 <= x < 0x1_0000_0000_0000_0000

  function Pow2(n: nat): (r: nat)
    ensures r >= 1
  {
    if n == 0 then 1 else 2 * Pow2(n - 1)
  }

  /** `(a + d - 1) / d` is the ceiling of `a / d`. */
  lemma CeilDiv(a: int, d: int)
    requires a >= 0 && d > 0
    ensures ((a + d - 1) / d - 1) * d < a <= ((a + d - 1) / d) * d
  {
    var q := (a + d - 1) / d;
    assert a + d - 1 == q * d + (a + d - 1) % d;
    assert (q - 1) * d == q * d - d;
  }

  lemma Pow2Of64()
    ensures Pow2(64) == U64
  {
    assert Pow2(1) == 2;
    Pow2Add(1, 1);
    Pow2Add(2, 2);
    Pow2Add(4, 4);
    Pow2Add(8, 8);
    Pow2Add(16, 16);
    Pow2Add(32, 32);
  }

  /** Bit `i` of `n` is set: what `n & (1 << i)` tests for `i < 31`. */
  predicate Bit(n: nat, i: nat) {
    (n / Pow2(i)) % 2 == 1
  }

  lemma {:induction false} Pow2Add(a: nat, b: nat)
    ensures Pow2(a + b) == Pow2(a) * Pow2(b)
  {
    if b > 0 {
      Pow2Add(a, b - 1);
      assert Pow2(a + b) == 2 * Pow2(a + b - 1);
    }
  }

  lemma MulNonneg(a: int, b: int)
    requires a >= 0 && b >= 0
    ensures a * b >= 0
  {
  }

  lemma MulPos(d: int, k: int)
    requires d > 0 && k >= 1
    ensures d * k >= d
  {
    assert d * k == d * (k - 1) + d;
  }

  /** Quotient and remainder are determined by `q * d + m` with `0 <= m < d`. */
  lemma DivModUnique(q: int, m: int, d: int)
    requires d > 0 && 0 <= m < d
    ensures (q * d + m) / d == q && (q * d + m) % d == m
  {
    var n := q * d + m;
    var q', m' := n / d, n % d;
    assert n == q' * d + m';
    assert (q - q') * d == m' - m;
    if q' < q {
      MulPos(d, q - q');
      assert false;
    } else if q < q' {
      MulPos(d, q' - q);
      assert false;
    }
  }

  /** `x` lies in the `a`-th run of `d` consecutive integers exactly when `x / d == a`. */
  lemma DivRange(x: int, a: int, d: int)
    requires d > 0 && x >= 0
    ensures (a * d <= x < a * d + d) <==> x / d == a
  {
    if a * d <= x < a * d + d {
      DivModUnique(a, x - a * d, d);
    }
  }

  /** A point `(c, r)` with non-negative coordinates lies in cell `(i % rb, i / rb)`
      of a grid of `cs x cs` cells, `rb` cells to a row, exactly when its cell,
      numbered row by row, is `i`. */
  lemma CellIff(r: int, c: int, i: nat, cs: int, rb: int)
    requires cs >= 1 && rb >= 1
    ensures ((i / rb) * cs <= r < (i / rb) * cs + cs && (i % rb) * cs <= c < (i % rb) * cs + cs)
        <==> (r >= 0 && c >= 0 && c / cs < rb && (r / cs) * rb + c / cs == i)
  {
    var a, b := i % rb, i / rb;
    MulNonneg(a, cs);
    MulNonneg(b, cs);
    assert i == b * rb + a;
    if r >= 0 && c >= 0 {
      DivRange(r, b, cs);
      DivRange(c, a, cs);
      if c / cs < rb && (r / cs) * rb + c / cs == i {
        DivModUnique(r / cs, c / cs, rb);
      }
    }
  }

  lemma MulMonoLeft(a: int, b: int, d: int)
    requires 0 <= a <= b && d >= 0
    ensures a * d <= b * d
  {
    assert b * d == a * d + (b - a) * d;
  }

  /** A cell number `q * rb + c` below `rb * rb` lies in one of the first `rb` rows. */
  lemma RowBelow(q: int, rb: int, c: int, cells: int)
    requires rb >= 1 && q >= 0 && c >= 0 && q * rb + c < cells <= rb * rb
    ensures q < rb
  {
    if q >= rb {
      MulMonoLeft(rb, q, rb);
      assert false;
    }
  }

  /** Cell `(i % rb, i / rb)` of a grid of `cs x cs` cells lies within the
      `cs * rb` square when the grid holds at most `rb * rb` cells. */
  lemma CellFits(i: nat, cs: int, rb: int, cells: int)
    requires cs >= 1 && rb >= 1 && i < cells <= rb * rb
    ensures 0 <= (i % rb) * cs && (i % rb) * cs + cs <= cs * rb
    ensures 0 <= (i / rb) * cs && (i / rb) * cs + cs <= cs * rb
  {
    var a, b := i % rb, i / rb;
    MulNonneg(a, cs);
    MulNonneg(b, cs);
    MulMonoLeft(a + 1, rb, cs);
    assert i == b * rb + a;
    if b >= rb {
      MulMonoLeft(rb, b, rb);
      assert false;
    }
    MulMonoLeft(b + 1, rb, cs);
    assert (a + 1) * cs == a * cs + cs;
    assert (b + 1) * cs == b * cs + cs;
  }

  /** A cell of a `w`-wide raster at row `r`, column `c` has a flat index below `w * h`. */
  lemma IndexInBounds(r: int, c: int, w: int, h: int)
    requires 0 <= r < h && 0 <= c < w
    ensures 0 <= r * w + c < w * h
  {
    MulMonoLeft(r, h - 1, w);
    assert (h - 1) * w + w == h * w;
  }

  /** Adding bit `b` to the low `b` bits gives the low `b + 1` bits. */
  lemma ModPow2Step(n: nat, b: nat)
    ensures n % Pow2(b + 1) == n % Pow2(b) + (if Bit(n, b) then Pow2(b) else 0)
  {
    var p := Pow2(b);
    var q := n / p;
    assert n == q * p + n % p;
    assert q == (q / 2) * 2 + q % 2;
    assert n == (q / 2) * (2 * p) + ((q % 2) * p + n % p) by {
      assert q * p == ((q / 2) * 2 + q % 2) * p;
    }
    assert 0 <= (q % 2) * p + n % p < 2 * p;
    DivModUnique(q / 2, (q % 2) * p + n % p, 2 * p);
  }

  /** `(n % (a * b)) % a == n % a`. */
  lemma ModMod(n: nat, a: int, b: int)
    requires a > 0 && b > 0
    ensures (n % (a * b)) % a == n % a
  {
    var m := n % (a * b);
    var q := n / (a * b);
    assert n == q * (a * b) + m;
    assert m == (m / a) * a + m % a;
    assert n == (q * b + m / a) * a + m % a;
    DivModUnique(q * b + m / a, m % a, a);
  }

  /** Bit `i` of `n` is set exactly when `n` mod `2^(i+1)` reaches `2^i`. */
  lemma BitByMod(n: nat, i: nat)
    ensures Bit(n, i) <==> n % Pow2(i + 1) >= Pow2(i)
  {
    ModPow2Step(n, i);
  }

  /** Reducing `n` modulo `2^t` keeps every bit below `t`. */
  lemma BitOfLow(n: nat, t: nat, i: nat)
    requires i < t
    ensures Bit(n % Pow2(t), i) <==> Bit(n, i)
  {
    Pow2Add(i + 1, t - (i + 1));
    assert Pow2(t) == Pow2(i + 1) * Pow2(t - (i + 1));
    ModMod(n, Pow2(i + 1), Pow2(t - (i + 1)));
    BitByMod(n, i);
    BitByMod(n % Pow2(t), i);
  }
}
