/** Python's `%` operator on reals with a positive divisor, and absolute value.
    The time-field computation folds an unfolded coordinate back into one copy of
    the rectangle with `x % span`; for a positive span Python's remainder takes
    the sign of the divisor, so it lands in `[0, span)`. */
module Fold {

  function Abs(x: real): (r: real)
    ensures r >= 0.0
    ensures r == x || r == -x
  {
    if x < 0.0 then -x else x
  }

  /** `x % m` in Python for `m > 0`: `x` moved by whole periods `m` into `[0, m)`.
      `ModIsFloorRemainder` shows this is `x - m * floor(x / m)`. */
  function Mod(x: real, m: real): (r: real)
    requires m > 0.0
    ensures 0.0 <= r < m
    decreases if x < 0.0 then -(x / m).Floor else (x / m).Floor
  {
    if x < 0.0 then
      FloorStep(x, m);
      Mod(x + m, m)
    else if x < m then
      x
    else
      FloorStep(x - m, m);
      Mod(x - m, m)
  }

  /** Adding one period raises the floor quotient by one. */
  lemma FloorStep(y: real, m: real)
    requires m > 0.0
    ensures ((y + m) / m).Floor == (y / m).Floor + 1
  {
    calc {
      (y + m) / m;
      y / m + m / m;
      y / m + 1.0;
    }
  }

  // Scaling by a positive factor keeps the order of two reals.
  lemma ScaleLe(m: real, a: real, b: real)
    requires m > 0.0 && a <= b
    ensures m * a <= m * b
  {}

  lemma ScaleLt(m: real, a: real, b: real)
    requires m > 0.0 && a < b
    ensures m * a < m * b
  {}

  /** The floor quotient brackets `x` between two consecutive multiples of `m`. */
  lemma FloorBounds(x: real, m: real)
    requires m > 0.0
    ensures (x / m).Floor as real * m <= x < (x / m).Floor as real * m + m
  {
    var y := x / m;
    var k := y.Floor as real;
    ScaleLe(m, k, y);
    ScaleLt(m, y, k + 1.0);
    assert m * y == x;
    assert m * (k + 1.0) == m * k + m;
    assert m * k == k * m;
    assert k * m <= x;
    assert x < k * m + m;
  }

  /** The remainder is determined by the bracket: whenever `k*m <= x < (k+1)*m`
      for an integer `k`, `x % m` is `x - k*m`. */
  lemma ModUnique(x: real, m: real, k: int)
    requires m > 0.0
    requires k as real * m <= x < k as real * m + m
    ensures Mod(x, m) == x - k as real * m
  {
    if k >= 0 {
      ModUniqueUpward(x, m, k);
    } else {
      ModUniqueDownward(x, m, k);
    }
  }

  lemma {:induction false} ModUniqueUpward(x: real, m: real, k: nat)
    requires m > 0.0
    requires k as real * m <= x < k as real * m + m
    ensures Mod(x, m) == x - k as real * m
    decreases k
  {
    if k > 0 {
      BracketBelow(x, m, k);
      ModUniqueUpward(x - m, m, k - 1);
    }
  }

  lemma {:induction false} ModUniqueDownward(x: real, m: real, k: int)
    requires m > 0.0 && k < 0
    requires k as real * m <= x < k as real * m + m
    ensures Mod(x, m) == x - k as real * m
    decreases -k
  {
    BracketAbove(x, m, k);
    if k < -1 {
      ModUniqueDownward(x + m, m, k + 1);
    } else {
      assert 0.0 <= x + m < m;
    }
  }

  /** For a bracket index `k > 0`, `x` is at least one period and `x - m` lies
      in bracket `k - 1`. */
  lemma BracketBelow(x: real, m: real, k: int)
    requires m > 0.0 && k > 0
    requires k as real * m <= x < k as real * m + m
    ensures x >= m
    ensures Mod(x, m) == Mod(x - m, m)
    ensures (k - 1) as real * m <= x - m < (k - 1) as real * m + m
    ensures x - m - (k - 1) as real * m == x - k as real * m
  {
    ScaleLe(m, 1.0, k as real);
    assert (k - 1) as real * m == k as real * m - m;
  }

  /** For a bracket index `k < 0`, `x` is negative and `x + m` lies in bracket `k + 1`. */
  lemma BracketAbove(x: real, m: real, k: int)
    requires m > 0.0 && k < 0
    requires k as real * m <= x < k as real * m + m
    ensures x < 0.0
    ensures Mod(x, m) == Mod(x + m, m)
    ensures (k + 1) as real * m <= x + m < (k + 1) as real * m + m
    ensures x + m - (k + 1) as real * m == x - k as real * m
  {
    ScaleLe(m, (k + 1) as real, 0.0);
    assert (k + 1) as real * m == k as real * m + m;
  }

  /** `x % m` is the remainder of floor division, `x - m * floor(x / m)`. */
  lemma ModIsFloorRemainder(x: real, m: real)
    requires m > 0.0
    ensures Mod(x, m) == x - (x / m).Floor as real * m
  {
    FloorBounds(x, m);
    ModUnique(x, m, (x / m).Floor);
  }

  /** An exact multiple of the divisor folds to zero. */
  lemma ModOfMultiple(m: real, k: int)
    requires m > 0.0
    ensures Mod(k as real * m, m) == 0.0
  {
    ModUnique(k as real * m, m, k);
  }
}
