/**
 * The graph engine's node numbering. Node ids are 1-based and are handed out
 * column by column (outer loop over columns, inner loop over rows) over a
 * square grid whose side is the ceiling of the square root of the node count.
 */
module GridIndex {

  /** The (row, col) of a node id; the source's floor division and remainder
      by a positive divisor agree with Dafny's. */
  function NodeIdToGrid(id: int, gridSize: int): (rc: (int, int))
    requires gridSize > 0
    ensures 0 <= rc.0 < gridSize
    ensures GridToNodeId(rc.0, rc.1, gridSize) == id
  {
    ((id - 1) % gridSize, (id - 1) / gridSize)
  }

  /** The id the build loop gives to the cell at (row, col). */
  function GridToNodeId(row: int, col: int, gridSize: int): int
  {
    col * gridSize + row + 1
  }

  /** Ids 1..g*g land exactly on the columns of the g-by-g grid. */
  lemma NodeIdInGrid(id: int, gridSize: int)
    requires gridSize > 0
    requires 1 <= id <= gridSize * gridSize
    ensures 0 <= NodeIdToGrid(id, gridSize).1 < gridSize
  {
    var col := (id - 1) / gridSize;
    assert col * gridSize <= id - 1;
    if col >= gridSize {
      MulMonotone(gridSize, col, gridSize);
      assert false;
    }
  }

  /** Every cell of the grid is reached by exactly one id in 1..g*g. */
  lemma GridRoundTrip(row: int, col: int, gridSize: int)
    requires gridSize > 0
    requires 0 <= row < gridSize && 0 <= col < gridSize
    ensures 1 <= GridToNodeId(row, col, gridSize) <= gridSize * gridSize
    ensures NodeIdToGrid(GridToNodeId(row, col, gridSize), gridSize) == (row, col)
  {
    var id := GridToNodeId(row, col, gridSize);
    MulMonotone(col, gridSize - 1, gridSize);
    assert (gridSize - 1) * gridSize + gridSize == gridSize * gridSize;
    DivisionUnique(id - 1, gridSize, col, row);
  }

  lemma MulMonotone(a: int, b: int, c: int)
    requires a <= b && c >= 0
    ensures a * c <= b * c
  {
    assert b * c - a * c == (b - a) * c;
  }

  /** The quotient and remainder of division by a positive number are unique. */
  lemma DivisionUnique(n: int, d: int, q: int, r: int)
    requires d > 0 && 0 <= r < d && n == q * d + r
    ensures n / d == q && n % d == r
  {
    var q', r' := n / d, n % d;
    assert (q' - q) * d == r - r' by {
      assert q' * d + r' == q * d + r;
      assert (q' - q) * d == q' * d - q * d;
    }
    if q' > q {
      MulMonotone(1, q' - q, d);
      assert false;
    } else if q' < q {
      MulMonotone(1, q - q', d);
      assert false;
    }
  }

  /** The build loop's counter: at column index i and row index j (both
      1-based) the counter holds (i - 1) * g + j, which is the id whose grid
      cell is (j - 1, i - 1). */
  lemma BuildOrderMatches(i: int, j: int, gridSize: int)
    requires gridSize > 0
    requires 1 <= i <= gridSize && 1 <= j <= gridSize
    ensures NodeIdToGrid((i - 1) * gridSize + j, gridSize) == (j - 1, i - 1)
  {
    GridRoundTrip(j - 1, i - 1, gridSize);
  }

  /** int(ceil(sqrt(n))) for a non-negative integer n. */
  function CeilSqrt(n: nat): (g: nat)
    ensures g * g >= n
    ensures g == 0 || (g - 1) * (g - 1) < n
  {
    CeilSqrtFrom(n, 0)
  }

  /** The ceiling of a square root is the only g with (g - 1)^2 < n <= g^2. */
  lemma CeilSqrtUnique(n: nat, g: nat)
    requires g > 0 && g * g >= n && (g - 1) * (g - 1) < n
    ensures CeilSqrt(n) == g
  {
    var r := CeilSqrt(n);
    if r > g {
      MulMonotone(g, r - 1, r - 1);
      MulMonotone(g, r - 1, g);
    } else if r < g {
      MulMonotone(r, g - 1, r);
      MulMonotone(r, g - 1, g - 1);
    }
  }

  function CeilSqrtFrom(n: nat, g: nat): (r: nat)
    requires g == 0 || (g - 1) * (g - 1) < n
    ensures r * r >= n
    ensures r == 0 || (r - 1) * (r - 1) < n
    decreases n - g
  {
    if g * g >= n then g
    else
      assert g <= g * g || g == 0;
      CeilSqrtFrom(n, g + 1)
  }
}
