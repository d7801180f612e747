/** Facts about remainders that the ring buffers rest on. */
module Modular {

  lemma MulAtLeast(m: int, d: int)
    requires m > 0
    ensures d >= 1 ==> m * d >= m
    ensures d <= -1 ==> m * d <= -m
  {
    if d >= 1 {
      assert m * d == m * (d - 1) + m;
      MulNonNegative(m, d - 1);
    } else if d <= -1 {
      assert m * d == -(m * (-d - 1)) - m;
      MulNonNegative(m, -d - 1);
    }
  }

  lemma MulNonNegative(a: nat, b: nat)
    ensures a * b >= 0
  {
  }

  /** Quotient and remainder are unique. */
  lemma DivModUnique(x: int, m: int, q: int, r: int)
    requires m > 0 && 0 <= r < m && x == m * q + r
    ensures x / m == q && x % m == r
  {
    var d := q - x / m;
    assert m * d == m * q - m * (x / m);
    MulAtLeast(m, d);
  }

  lemma ModShift(x: int, m: int, k: int)
    requires m > 0
    ensures (x + m * k) % m == x % m
  {
    assert x + m * k == m * (x / m + k) + x % m;
    DivModUnique(x + m * k, m, x / m + k, x % m);
  }

  lemma ModOfMultiple(m: int, k: int)
    requires m > 0
    ensures (m * k) % m == 0
  {
    DivModUnique(m * k, m, k, 0);
  }

  /** Adding before or after taking the remainder is the same. */
  lemma ModAdd(x: int, y: int, m: int)
    requires m > 0
    ensures (x % m + y) % m == (x + y) % m
  {
    assert x == m * (x / m) + x % m;
    ModShift(x % m + y, m, x / m);
  }

  /** A step of less than `m` wraps at most once. */
  lemma ModStep(x: int, d: int, m: int)
    requires m > 0 && 0 <= d < m
    ensures (x + d) % m == if x % m + d < m then x % m + d else x % m + d - m
  {
    var q, r := x / m, x % m;
    if r + d < m {
      DivModUnique(x + d, m, q, r + d);
    } else {
      assert m * (q + 1) == m * q + m;
      DivModUnique(x + d, m, q + 1, r + d - m);
    }
  }

  lemma ModDifference(x: int, y: int, m: int)
    requires m > 0
    ensures (y - x) % m == if y % m >= x % m then y % m - x % m else y % m - x % m + m
  {
    var d := y / m - x / m;
    assert m * d == m * (y / m) - m * (x / m);
    if y % m >= x % m {
      DivModUnique(y - x, m, d, y % m - x % m);
    } else {
      assert m * (d - 1) == m * d - m;
      DivModUnique(y - x, m, d - 1, y % m - x % m + m);
    }
  }

  /** Numbers closer than `m` have different remainders. */
  lemma ModDiffer(a: int, b: int, m: int)
    requires m > 0 && a < b < a + m
    ensures a % m != b % m
  {
    ModStep(a, b - a, m);
  }

  /** Numbers that agree modulo a multiple of `m` agree modulo `m`. */
  lemma ModOfCongruent(a: int, b: int, m: int, big: int)
    requires m > 0 && big > 0 && big % m == 0 && a % big == b % big
    ensures a % m == b % m
  {
    var k := big / m;
    assert big == m * k;
    var d := b / big - a / big;
    assert b == a + big * d by { assert big * d == big * (b / big) - big * (a / big); }
    assert big * d == m * (k * d);
    ModShift(a, m, k * d);
  }

  /** The slot of `x` in a ring of `m` slots. */
  function Pos(x: nat, m: nat): (p: nat)
    requires m > 0
    ensures p < m
  {
    if x < m then x else Pos(x - m, m)
  }

  lemma {:induction false} PosIsMod(x: nat, m: nat)
    requires m > 0
    ensures Pos(x, m) == x % m
  {
    if x >= m {
      PosIsMod(x - m, m);
      ModShift(x - m, m, 1);
    } else {
      DivModUnique(x, m, 0, x);
    }
  }

  lemma PosStep(x: nat, d: nat, m: nat)
    requires m > 0 && d < m
    ensures Pos(x + d, m) == if Pos(x, m) + d < m then Pos(x, m) + d else Pos(x, m) + d - m
  {
    PosIsMod(x, m);
    PosIsMod(x + d, m);
    ModStep(x, d, m);
  }

  lemma PosDiffer(a: nat, b: nat, m: nat)
    requires m > 0 && a < b < a + m
    ensures Pos(a, m) != Pos(b, m)
  {
    PosStep(a, b - a, m);
  }

  /** Where element `k` after the start lies in a ring, when it wraps at most once. */
  function Slot(start: nat, k: nat, size: nat): nat { if start + k < size then start + k else start + k - size }

  lemma SlotIsMod(start: nat, k: nat, size: nat)
    requires start < size && k <= size
    ensures (start + k) % size == Slot(start, k, size)
  {
    if start + k < size { DivModUnique(start + k, size, 0, start + k); }
    else { DivModUnique(start + k, size, 1, start + k - size); }
  }

  function Pow2(e: nat): (p: nat)
    ensures p > 0
  {
    if e == 0 then 1 else 2 * Pow2(e - 1)
  }
}
