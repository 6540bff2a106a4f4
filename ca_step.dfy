/**
 * One step of the raster cellular automaton. A grid is a matrix of cell
 * values; the step copies the grid, turns burning cells burnt, and ignites
 * forest cells from the burning-neighbour count (a zero-filled 3 x 3
 * convolution with the Moore kernel) and the per-cell random draws.
 */
module Automaton {

  const NoForest: int := 0
  const Forest: int := 1
  const Burning: int := 2
  const Burnt: int := 3

  type Grid = seq<seq<int>>
  type Mask = seq<seq<bool>>
  type Field = seq<seq<real>>

  /** Two matrices with the same rows of the same lengths. */
  predicate SameShape<A, B>(a: seq<seq<A>>, b: seq<seq<B>>)
  {
    |a| == |b| && forall i :: 0 <= i < |a| ==> |a[i]| == |b[i]|
  }

  predicate InGrid<A>(a: seq<seq<A>>, i: int, j: int)
  {
    0 <= i < |a| && 0 <= j < |a[i]|
  }

  /** Whether cell (i, j) exists and is burning. */
  predicate IsBurningCell(g: Grid, i: int, j: int)
  {
    InGrid(g, i, j) && g[i][j] == Burning
  }

  /** grid == v, cell by cell. */
  function Equals(g: Grid, v: int): (m: Mask)
    ensures SameShape(m, g)
    ensures forall i, j :: InGrid(g, i, j) ==> m[i][j] == (g[i][j] == v)
  {
    seq(|g|, i requires 0 <= i < |g| => seq(|g[i]|, j requires 0 <= j < |g[i]| => g[i][j] == v))
  }

  /** (grid == BURNING).astype(uint8): 1 at burning cells, 0 elsewhere. */
  function BurningIndicator(g: Grid): (b: Grid)
    ensures IsIndicator(b, g)
  {
    seq(|g|, i requires 0 <= i < |g| => seq(|g[i]|, j requires 0 <= j < |g[i]| => if g[i][j] == Burning then 1 else 0))
  }

  /** b is 1 at the burning cells of g and 0 at its other cells. */
  ghost predicate IsIndicator(b: Grid, g: Grid)
  {
    SameShape(b, g) && forall i, j :: InGrid(g, i, j) ==> b[i][j] == if g[i][j] == Burning then 1 else 0
  }

  /** The value of a at (i, j), or the fill value 0 outside it. */
  function Filled(a: Grid, i: int, j: int): int
  {
    if InGrid(a, i, j) then a[i][j] else 0
  }

  predicate IsKernel(k: Grid)
  {
    |k| == 3 && forall p :: 0 <= p < 3 ==> |k[p]| == 3
  }

  /** The Moore kernel: the eight cells around the centre. */
  const MooreKernel: Grid := [[1, 1, 1], [1, 0, 1], [1, 1, 1]]

  /** The first n terms, in row-major kernel order, of the "same"-mode
      convolution at (i, j): kernel entry (p, q) weighs the input at
      (i + 1 - p, j + 1 - q), the kernel being flipped as convolution does. */
  function KernelSum(a: Grid, k: Grid, i: int, j: int, n: nat): int
    requires IsKernel(k) && n <= 9
  {
    if n == 0 then 0 else KernelSum(a, k, i, j, n - 1) + KernelTerm(a, k, i, j, n - 1)
  }

  /** Term m of the sum: kernel entry (m / 3, m % 3) times the input it weighs. */
  function KernelTerm(a: Grid, k: Grid, i: int, j: int, m: nat): int
    requires IsKernel(k) && m < 9
  {
    k[m / 3][m % 3] * Filled(a, i + 1 - m / 3, j + 1 - m % 3)
  }

  /** convolve2d(a, k, mode='same', boundary='fill', fillvalue=0). */
  function Convolve2dSame(a: Grid, k: Grid): (out: Grid)
    requires IsKernel(k)
    ensures SameShape(out, a)
    ensures forall i, j :: InGrid(a, i, j) ==> out[i][j] == KernelSum(a, k, i, j, 9)
  {
    seq(|a|, i requires 0 <= i < |a| => seq(|a[i]|, j requires 0 <= j < |a[i]| => KernelSum(a, k, i, j, 9)))
  }

  /** The burning-neighbour count of every cell. */
  function NeighbourCounts(g: Grid): (c: Grid)
    ensures SameShape(c, g)
  {
    Convolve2dSame(BurningIndicator(g), MooreKernel)
  }

  /** has_burning_neighbor at one cell. */
  predicate HasBurningNeighbour(g: Grid, i: int, j: int)
    requires InGrid(g, i, j)
  {
    NeighbourCounts(g)[i][j] > 0
  }

  /** grid[mask] = v on a copy: v where the mask holds, the old value elsewhere. */
  function AssignWhere(g: Grid, mask: Mask, v: int): (r: Grid)
    requires SameShape(mask, g)
    ensures SameShape(r, g)
    ensures forall i, j :: InGrid(g, i, j) ==> r[i][j] == if mask[i][j] then v else g[i][j]
  {
    seq(|g|, i requires 0 <= i < |g| => seq(|g[i]|, j requires 0 <= j < |g[i]| => if mask[i][j] then v else g[i][j]))
  }

  /** ignites_from_neighbor: forest cells with a burning neighbour whose
      neighbour draw is below p_ignite. */
  function NeighbourIgnition(g: Grid, rn: Field, pIgnite: real): (m: Mask)
    requires SameShape(rn, g)
    ensures SameShape(m, g)
    ensures forall i, j :: InGrid(g, i, j) ==>
              m[i][j] == (g[i][j] == Forest && HasBurningNeighbour(g, i, j) && rn[i][j] < pIgnite)
  {
    var counts := NeighbourCounts(g);
    seq(|g|, i requires 0 <= i < |g| => seq(|g[i]|, j requires 0 <= j < |g[i]| =>
      g[i][j] == Forest && counts[i][j] > 0 && rn[i][j] < pIgnite))
  }

  /** ignites_spontaneously: forest cells without a burning neighbour whose
      spontaneous draw is below p_spontaneous. */
  function SpontaneousIgnition(g: Grid, rs: Field, pSpontaneous: real): (m: Mask)
    requires SameShape(rs, g)
    ensures SameShape(m, g)
    ensures forall i, j :: InGrid(g, i, j) ==>
              m[i][j] == (g[i][j] == Forest && !HasBurningNeighbour(g, i, j) && rs[i][j] < pSpontaneous)
  {
    var counts := NeighbourCounts(g);
    seq(|g|, i requires 0 <= i < |g| => seq(|g[i]|, j requires 0 <= j < |g[i]| =>
      g[i][j] == Forest && !(counts[i][j] > 0) && rs[i][j] < pSpontaneous))
  }

  /** _run_ca_step / run_ca_step: the copy of the grid after the three masked
      assignments, in the source's order. rn and rs are the two random fields
      drawn for the step. */
  function CaStep(g: Grid, rn: Field, rs: Field, pIgnite: real, pSpontaneous: real): (next: Grid)
    requires SameShape(rn, g) && SameShape(rs, g)
    ensures SameShape(next, g)
  {
    var burntOut := AssignWhere(g, Equals(g, Burning), Burnt);
    var fromNeighbour := AssignWhere(burntOut, NeighbourIgnition(g, rn, pIgnite), Burning);
    AssignWhere(fromNeighbour, SpontaneousIgnition(g, rs, pSpontaneous), Burning)
  }

  // ---------------------------------------------------------------------
  // The cell rule
  // ---------------------------------------------------------------------

  /** The automaton's transition table for one cell: a burning cell burns
      out; a forest cell ignites from a burning neighbour with probability
      p_ignite and, without one, spontaneously with probability
      p_spontaneous; every other value stays. */
  function CellRule(cell: int, hasNeighbour: bool, dn: real, ds: real, pIgnite: real, pSpontaneous: real): int
  {
    if cell == Burning then Burnt
    else if cell == Forest then
      (if hasNeighbour then (if dn < pIgnite then Burning else Forest)
       else (if ds < pSpontaneous then Burning else Forest))
    else cell
  }

  /** The masked assignments compute the transition table at every cell. */
  lemma CaStepCell(g: Grid, rn: Field, rs: Field, pIgnite: real, pSpontaneous: real, i: int, j: int)
    requires SameShape(rn, g) && SameShape(rs, g) && InGrid(g, i, j)
    ensures CaStep(g, rn, rs, pIgnite, pSpontaneous)[i][j] ==
            CellRule(g[i][j], HasBurningNeighbour(g, i, j), rn[i][j], rs[i][j], pIgnite, pSpontaneous)
  {
    var burntOut := AssignWhere(g, Equals(g, Burning), Burnt);
    var fromNeighbour := AssignWhere(burntOut, NeighbourIgnition(g, rn, pIgnite), Burning);
    assert InGrid(burntOut, i, j) && InGrid(fromNeighbour, i, j);
  }

  /** The legal transitions of a step: burning cells burn out, burnt and
      non-forest cells stay, forest cells stay or ignite; a cell burns after
      the step only if it was forest, so none stays burning. */
  lemma CaStepTransitions(g: Grid, rn: Field, rs: Field, pIgnite: real, pSpontaneous: real, i: int, j: int)
    requires SameShape(rn, g) && SameShape(rs, g) && InGrid(g, i, j)
    ensures var next := CaStep(g, rn, rs, pIgnite, pSpontaneous);
            (g[i][j] == Burning ==> next[i][j] == Burnt) &&
            (g[i][j] != Burning && g[i][j] != Forest ==> next[i][j] == g[i][j]) &&
            (g[i][j] == Forest ==> next[i][j] == Forest || next[i][j] == Burning) &&
            (next[i][j] == Burning <==> g[i][j] == Forest && next[i][j] != Forest)
  {
    CaStepCell(g, rn, rs, pIgnite, pSpontaneous, i, j);
  }

  /** Neighbour ignition and spontaneous ignition never select the same cell. */
  lemma IgnitionMasksDisjoint(g: Grid, rn: Field, rs: Field, pIgnite: real, pSpontaneous: real, i: int, j: int)
    requires SameShape(rn, g) && SameShape(rs, g) && InGrid(g, i, j)
    ensures !(NeighbourIgnition(g, rn, pIgnite)[i][j] && SpontaneousIgnition(g, rs, pSpontaneous)[i][j])
  {
  }

  /** Draws in [0, 1), as np.random.rand makes them. */
  predicate UnitDraws(f: Field)
  {
    forall i, j :: 0 <= i < |f| && 0 <= j < |f[i]| ==> 0.0 <= f[i][j] < 1.0
  }

  /** With p_ignite = 1 every forest cell with a burning neighbour ignites;
      with p_spontaneous = 0 no forest cell without one does. */
  lemma CaStepExtremes(g: Grid, rn: Field, rs: Field, pIgnite: real, pSpontaneous: real, i: int, j: int)
    requires SameShape(rn, g) && SameShape(rs, g) && InGrid(g, i, j)
    requires UnitDraws(rn) && UnitDraws(rs) && g[i][j] == Forest
    ensures pIgnite == 1.0 && HasBurningNeighbour(g, i, j) ==> CaStep(g, rn, rs, pIgnite, pSpontaneous)[i][j] == Burning
    ensures pSpontaneous == 0.0 && !HasBurningNeighbour(g, i, j) ==> CaStep(g, rn, rs, pIgnite, pSpontaneous)[i][j] == Forest
  {
    CaStepCell(g, rn, rs, pIgnite, pSpontaneous, i, j);
    assert InGrid(rn, i, j) && InGrid(rs, i, j);
  }

  // ---------------------------------------------------------------------
  // The neighbour count
  // ---------------------------------------------------------------------

  /** The cell kernel entry m (row-major) weighs in the count at (i, j). */
  function KernelCell(i: int, j: int, m: int): (int, int)
  {
    (i + 1 - m / 3, j + 1 - m % 3)
  }

  /** The cells of the Moore neighbourhood of (i, j), the cell itself excluded. */
  predicate MooreNeighbour(i: int, j: int, p: (int, int))
  {
    -1 <= p.0 - i <= 1 && -1 <= p.1 - j <= 1 && p != (i, j)
  }

  /** The burning cells among the Moore neighbours of (i, j). */
  function BurningNeighbours(g: Grid, i: int, j: int): set<(int, int)>
  {
    set m | 0 <= m < 9 && m != 4 && IsBurningCell(g, KernelCell(i, j, m).0, KernelCell(i, j, m).1) :: KernelCell(i, j, m)
  }

  /** The burning cells counted by the first n kernel entries. */
  function CountedCells(g: Grid, i: int, j: int, n: nat): set<(int, int)>
  {
    set m | 0 <= m < n && m != 4 && IsBurningCell(g, KernelCell(i, j, m).0, KernelCell(i, j, m).1) :: KernelCell(i, j, m)
  }

  /** Distinct kernel entries weigh distinct cells. */
  lemma KernelCellInjective(i: int, j: int, m1: int, m2: int)
    requires 0 <= m1 < 9 && 0 <= m2 < 9 && KernelCell(i, j, m1) == KernelCell(i, j, m2)
    ensures m1 == m2
  {
    assert m1 == 3 * (m1 / 3) + m1 % 3 && m2 == 3 * (m2 / 3) + m2 % 3;
  }

  /** Kernel entry m of the Moore convolution of the burning indicator
      contributes 1 exactly when it is not the centre and weighs a burning
      cell. */
  lemma MooreTerm(g: Grid, b: Grid, i: int, j: int, m: nat)
    requires IsIndicator(b, g) && m < 9
    ensures KernelTerm(b, MooreKernel, i, j, m) == if Hit(g, i, j, m) then 1 else 0
  {
    var c := KernelCell(i, j, m);
    assert Filled(b, c.0, c.1) == if IsBurningCell(g, c.0, c.1) then 1 else 0;
    assert MooreKernel[m / 3][m % 3] == if m == 4 then 0 else 1;
  }

  /** Adding kernel entry m to the counted cells adds its cell when that
      cell is counted, and that cell was not counted before. */
  lemma CountedCellsStep(g: Grid, i: int, j: int, m: nat)
    requires m < 9
    ensures KernelCell(i, j, m) !in CountedCells(g, i, j, m)
    ensures CountedCells(g, i, j, m + 1) ==
            CountedCells(g, i, j, m) +
            (if m != 4 && IsBurningCell(g, KernelCell(i, j, m).0, KernelCell(i, j, m).1) then {KernelCell(i, j, m)} else {})
  {
    var c := KernelCell(i, j, m);
    if c in CountedCells(g, i, j, m) {
      var m' :| 0 <= m' < m && m' != 4 && IsBurningCell(g, KernelCell(i, j, m').0, KernelCell(i, j, m').1) &&
                KernelCell(i, j, m') == c;
      KernelCellInjective(i, j, m, m');
    }
  }

  /** Whether kernel entry m of the Moore kernel weighs a burning cell. */
  predicate Hit(g: Grid, i: int, j: int, m: int)
  {
    m != 4 && IsBurningCell(g, KernelCell(i, j, m).0, KernelCell(i, j, m).1)
  }

  /** The number of hits among the first n kernel entries. */
  function Hits(g: Grid, i: int, j: int, n: nat): nat
  {
    if n == 0 then 0 else Hits(g, i, j, n - 1) + (if Hit(g, i, j, n - 1) then 1 else 0)
  }

  /** The first n terms of the Moore convolution of the burning indicator
      add up the hits. */
  lemma {:induction false} KernelSumIsHits(g: Grid, b: Grid, i: int, j: int, n: nat)
    requires IsIndicator(b, g) && n <= 9
    ensures KernelSum(b, MooreKernel, i, j, n) == Hits(g, i, j, n)
  {
    if n > 0 {
      KernelSumIsHits(g, b, i, j, n - 1);
      MooreTerm(g, b, i, j, n - 1);
    }
  }

  /** The hits of the first n kernel entries are as many as the cells they
      count. */
  lemma {:induction false} CountedCellsAreHits(g: Grid, i: int, j: int, n: nat)
    requires n <= 9
    ensures |CountedCells(g, i, j, n)| == Hits(g, i, j, n)
  {
    if n > 0 {
      CountedCellsAreHits(g, i, j, n - 1);
      CountedCellsStep(g, i, j, n - 1);
    }
  }

  /** The centre entry is never a hit, so n entries hit at most n - 1 times
      once they include it. */
  lemma {:induction false} HitsBound(g: Grid, i: int, j: int, n: nat)
    requires n <= 9
    ensures Hits(g, i, j, n) <= (if n > 4 then n - 1 else n)
  {
    if n > 0 {
      HitsBound(g, i, j, n - 1);
    }
  }

  /** The first n terms of the Moore convolution of the burning indicator
      count exactly the burning cells of the first n kernel entries. */
  lemma KernelSumCounts(g: Grid, i: int, j: int, n: nat)
    requires n <= 9
    ensures KernelSum(BurningIndicator(g), MooreKernel, i, j, n) == |CountedCells(g, i, j, n)|
    ensures |CountedCells(g, i, j, n)| <= (if n > 4 then n - 1 else n)
  {
    KernelSumIsHits(g, BurningIndicator(g), i, j, n);
    CountedCellsAreHits(g, i, j, n);
    HitsBound(g, i, j, n);
  }

  /** The kernel entries other than the centre cover exactly the Moore
      neighbourhood. */
  lemma BurningNeighboursAreMoore(g: Grid, i: int, j: int)
    ensures forall p :: p in BurningNeighbours(g, i, j) <==> MooreNeighbour(i, j, p) && IsBurningCell(g, p.0, p.1)
  {
    forall p | MooreNeighbour(i, j, p) && IsBurningCell(g, p.0, p.1)
      ensures p in BurningNeighbours(g, i, j)
    {
      var m := 3 * (1 - (p.0 - i)) + (1 - (p.1 - j));
      assert KernelCell(i, j, m) == p;
    }
  }

  /** The burning-neighbour count at a cell is the number of its in-bounds
      Moore neighbours that burn, so it lies in 0..8, and it is positive
      exactly when one of them burns. */
  lemma NeighbourCountIsMooreCount(g: Grid, i: int, j: int)
    requires InGrid(g, i, j)
    ensures NeighbourCounts(g)[i][j] == |BurningNeighbours(g, i, j)|
    ensures 0 <= NeighbourCounts(g)[i][j] <= 8
    ensures HasBurningNeighbour(g, i, j) <==>
              exists p :: MooreNeighbour(i, j, p) && IsBurningCell(g, p.0, p.1)
  {
    KernelSumCounts(g, i, j, 9);
    assert CountedCells(g, i, j, 9) == BurningNeighbours(g, i, j);
    BurningNeighboursAreMoore(g, i, j);
    if HasBurningNeighbour(g, i, j) {
      var p :| p in BurningNeighbours(g, i, j);
      assert MooreNeighbour(i, j, p) && IsBurningCell(g, p.0, p.1);
    }
  }

  /** Fire spreads one hop per step: without spontaneous ignition, a cell
      burns after the step only if it was forest next to a burning cell. */
  lemma OneHopSpread(g: Grid, rn: Field, rs: Field, pIgnite: real, i: int, j: int)
    requires SameShape(rn, g) && SameShape(rs, g) && InGrid(g, i, j) && UnitDraws(rs)
    requires CaStep(g, rn, rs, pIgnite, 0.0)[i][j] == Burning
    ensures g[i][j] == Forest
    ensures exists p :: MooreNeighbour(i, j, p) && IsBurningCell(g, p.0, p.1)
  {
    CaStepCell(g, rn, rs, pIgnite, 0.0, i, j);
    assert InGrid(rs, i, j);
    NeighbourCountIsMooreCount(g, i, j);
  }
}
