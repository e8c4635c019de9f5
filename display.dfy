/** Size in pixels of one cell of the on-screen pixel grid:
    `Math.min(20, Math.max(4, Math.floor(340 / gridSize)))`. */
module Display {
  import opened Numbers

  /** Width in pixels the grid is meant to fill. */
  const Budget: nat := 340
  const MinCell: nat := 4
  const MaxCell: nat := 20

  /** The clamped cell size. A zero grid size divides to Infinity in
      JavaScript, which the clamp turns into the upper bound. */
  function CellSize(gridSize: nat): (cs: nat)
    ensures MinCell <= cs <= MaxCell
  {
    if gridSize == 0 then MaxCell
    else
      var q := Budget / gridSize;
      if q < MinCell then MinCell else if q > MaxCell then MaxCell else q
  }

  /** The three regimes of the clamp: the upper bound up to 17 cells, the
      quotient between 17 and 85, the lower bound from 85 on. */
  lemma CellSizeRegimes(gridSize: nat)
    ensures gridSize <= 17 ==> CellSize(gridSize) == MaxCell
    ensures 17 <= gridSize <= 85 ==> CellSize(gridSize) == Budget / gridSize
    ensures gridSize >= 85 ==> CellSize(gridSize) == MinCell
  {
    if 1 <= gridSize <= 17 {
      DivAtLeast(Budget, gridSize, MaxCell);
    }
    if 17 <= gridSize <= 85 {
      DivAtMost(Budget, gridSize, MaxCell);
      DivAtLeast(Budget, gridSize, MinCell);
    }
    if gridSize >= 85 {
      DivAtMost(Budget, gridSize, MinCell);
    }
  }

  /** d · k <= a implies k <= a / d. */
  lemma DivAtLeast(a: nat, d: nat, k: nat)
    requires d > 0 && d * k <= a
    ensures k <= a / d
  {
    var q := a / d;
    assert a == d * q + a % d;
    assert d * (q + 1) == d * q + d;
    MulLess(d, k, q + 1);
  }

  /** a < d · (k + 1) implies a / d <= k. */
  lemma DivAtMost(a: nat, d: nat, k: nat)
    requires d > 0 && a < d * (k + 1)
    ensures a / d <= k
  {
    assert a == d * (a / d) + a % d;
    MulLess(d, a / d, k + 1);
  }

  /** Multiplying by d > 0 keeps strict order both ways. */
  lemma MulLess(d: nat, a: nat, b: nat)
    requires d > 0
    ensures a < b <==> d * a < d * b
  {
    if a < b {
      MulLeq(a + 1, b, d);
    } else {
      MulLeq(b, a, d);
    }
  }

  /** A larger grid never gets larger cells. */
  lemma CellSizeAntitone(m: nat, n: nat)
    requires 1 <= m <= n
    ensures CellSize(n) <= CellSize(m)
  {
    DivAntitone(Budget, m, n);
  }

  lemma DivAntitone(a: nat, m: nat, n: nat)
    requires 1 <= m <= n
    ensures a / n <= a / m
  {
    assert a == n * (a / n) + a % n;
    MulLeq(m, n, a / n);
    assert m * (a / n) <= n * (a / n);
    DivAtLeast(a, m, a / n);
  }

  /** The grid stays within the 340-pixel budget exactly when it has at most 85 cells a side. */
  lemma GridFitsBudget(gridSize: nat)
    requires gridSize >= 1
    ensures gridSize * CellSize(gridSize) <= Budget <==> gridSize <= 85
  {
    CellSizeRegimes(gridSize);
    if gridSize < 17 {
      MulLeq(gridSize, 17, MaxCell);
    } else if gridSize <= 85 {
      assert Budget == gridSize * (Budget / gridSize) + Budget % gridSize;
    } else {
      assert gridSize * MinCell > Budget;
    }
  }

  /** On the grid sizes the slider offers (8 to 64) cells are at least 5
      pixels and the grid fits the budget. */
  lemma SliderRange(gridSize: nat)
    requires 8 <= gridSize <= 64
    ensures 5 <= CellSize(gridSize) && gridSize * CellSize(gridSize) <= Budget
  {
    CellSizeRegimes(gridSize);
    GridFitsBudget(gridSize);
    if gridSize >= 17 {
      DivAtLeast(Budget, gridSize, 5);
    }
  }
}
