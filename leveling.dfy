/**
 * The level a player reaches with a given experience, computed by the service in
 * closed form as `(int) ((Math.sqrt(2500 + 200 * experience) - 50) / 100)`, and the
 * experience still missing to the next level.
 */
module Leveling {
  import opened Wrappers

  /** The largest experience the service accepts. */
  const MaxExperience := 10000000

  /** The integer square root, by halving: the root of `n` is twice the root of `n / 4`, or one more. */
  function FloorSqrt(n: nat): nat
    decreases n
  {
    if n < 4 then (if n == 0 then 0 else 1)
    else
      var h := FloorSqrt(n / 4);
      if (2 * h + 1) * (2 * h + 1) <= n then 2 * h + 1 else 2 * h
  }

  /** `FloorSqrt(n)` is the largest `r` with `r * r <= n`. */
  lemma {:induction false} FloorSqrtIsRoot(n: nat)
    ensures FloorSqrt(n) * FloorSqrt(n) <= n < (FloorSqrt(n) + 1) * (FloorSqrt(n) + 1)
    decreases n
  {
    if n >= 4 {
      FloorSqrtIsRoot(n / 4);
      SqrtStep(n, FloorSqrt(n / 4));
    }
  }

  /** Doubling the root of `n / 4` brackets the root of `n`. */
  lemma SqrtStep(n: nat, h: nat)
    requires n >= 4
    requires h * h <= n / 4 < (h + 1) * (h + 1)
    ensures (2 * h) * (2 * h) <= n < (2 * h + 2) * (2 * h + 2)
  {
    assert (2 * h) * (2 * h) == 4 * (h * h);
    assert (2 * h + 2) * (2 * h + 2) == 4 * ((h + 1) * (h + 1));
  }

  lemma SquareMonotone(a: int, b: int)
    requires 0 <= a <= b
    ensures a * a <= b * b
  {
    assert a * a <= a * b <= b * b;
  }

  /**
   * With `s` the integer root of `2500 + 200 * e` and `l == (s - 50) / 100`,
   * `e` lies in the band of level `l`.
   */
  lemma LevelBand(e: int, s: int, l: int)
    requires 0 <= e && 0 <= l
    requires s * s <= 2500 + 200 * e < (s + 1) * (s + 1)
    requires 100 * l + 50 <= s < 100 * l + 150
    ensures 50 * (l * (l + 1)) <= e < 50 * ((l + 1) * (l + 2))
  {
    SquareMonotone(100 * l + 50, s);
    SquareMonotone(s + 1, 100 * l + 150);
    assert (100 * l + 50) * (100 * l + 50) == 10000 * (l * (l + 1)) + 2500;
    assert (100 * l + 150) * (100 * l + 150) == 10000 * ((l + 1) * (l + 2)) + 2500;
  }

  /**
   * The service's level formula, `(sqrt(2500 + 200 * e) - 50) / 100` truncated.
   * The square root of the integer `2500 + 200 * e` is real-valued;
   * `100 * level + 50 <= sqrt(2500 + 200 * e)` holds exactly when
   * `100 * level + 50 <= FloorSqrt(2500 + 200 * e)`, so truncating the real quotient
   * and dividing the integer root give the same level. The root is at least 50, so
   * the dividend is never negative and Dafny's division truncates as Java's cast does.
   */
  function LevelOf(e: int): int
    requires 0 <= e
  {
    (FloorSqrt(2500 + 200 * e) - 50) / 100
  }

  /**
   * The formula inverts the experience curve `50 * L * (L + 1)`: the level is the
   * `L >= 0` whose band `[50 L (L + 1), 50 (L + 1) (L + 2))` holds `e`.
   */
  lemma LevelOfBand(e: int)
    requires 0 <= e
    ensures 0 <= LevelOf(e)
    ensures 50 * (LevelOf(e) * (LevelOf(e) + 1)) <= e < 50 * ((LevelOf(e) + 1) * (LevelOf(e) + 2))
  {
    var s := FloorSqrt(2500 + 200 * e);
    FloorSqrtIsRoot(2500 + 200 * e);
    assert s >= 50 by {
      if s < 50 { SquareMonotone(s + 1, 50); }
    }
    LevelBand(e, s, (s - 50) / 100);
  }

  /** The band of level `l` is `100 * (l + 1)` wide. */
  lemma BandWidth(l: int)
    ensures 50 * ((l + 1) * (l + 2)) - 50 * (l * (l + 1)) == 100 * (l + 1)
  {
    assert (l + 1) * (l + 2) == l * (l + 1) + 2 * (l + 1);
  }

  /** `untilNextLevel = 50 * (level + 1) * (level + 2) - experience`. */
  function UntilNextLevelOf(e: int): int
    requires 0 <= e
  {
    var l := LevelOf(e);
    50 * ((l + 1) * (l + 2)) - e
  }

  /** What is still missing to the next level is positive and at most that level's band. */
  lemma UntilNextLevelBounds(e: int)
    requires 0 <= e
    ensures 1 <= UntilNextLevelOf(e) <= 100 * (LevelOf(e) + 1)
  {
    LevelOfBand(e);
    BandWidth(LevelOf(e));
  }

  /** `a * (a + 1)` grows with `a`. */
  lemma ProductMonotone(a: int, b: int)
    requires 0 <= a <= b
    ensures a * (a + 1) <= b * (b + 1)
  {
    assert a * (a + 1) <= a * (b + 1) <= b * (b + 1);
  }

  /** The level is the GREATEST `L` with `50 * L * (L + 1) <= e`. */
  lemma LevelIsGreatest(e: int, lv: int)
    requires 0 <= e && 0 <= lv && 50 * (lv * (lv + 1)) <= e
    ensures lv <= LevelOf(e)
  {
    var l := LevelOf(e);
    LevelOfBand(e);
    if lv > l {
      ProductMonotone(l + 1, lv);
    }
  }

  /** The level never drops when experience grows. */
  lemma LevelMonotone(e1: int, e2: int)
    requires 0 <= e1 <= e2
    ensures LevelOf(e1) <= LevelOf(e2)
  {
    LevelOfBand(e1);
    LevelIsGreatest(e2, LevelOf(e1));
  }

  /**
   * For an accepted experience the formula's Java `int` intermediates do not overflow:
   * `2500 + 200 * experience` and `50 * (level + 1) * (level + 2)` both fit.
   */
  lemma LevelFormulaFitsInt(e: int)
    requires 0 <= e <= MaxExperience
    ensures 2500 + 200 * e <= IntMax
    ensures LevelOf(e) <= 446
    ensures 50 * ((LevelOf(e) + 1) * (LevelOf(e) + 2)) <= IntMax
  {
    var l := LevelOf(e);
    LevelOfBand(e);
    if l > 446 {
      ProductMonotone(447, l);
    }
    ProductMonotone(l + 1, 447);
  }
}
