/**
 * The crosscut detector: on a square grid of integers, a crosscut is a 2×2
 * block whose cells sum to 2 and whose two diagonals are each constant (on a
 * 0/1 grid: one diagonal of 1s, the other of 0s). The detector lists them in
 * row-major order of their top-left cell, each as its main diagonal when the
 * top-left cell is 1 and as its anti-diagonal otherwise (on a 0/1 grid, its
 * two 1-valued cells); a player may then swap one of its stones in a
 * crosscut with an enemy stone of the same crosscut.
 */
module CrosscutCounting {
  import opened Grids

  type Grid = seq<seq<int>>

  /** The two cells a crosscut reports. */
  type Pair = (Cell, Cell)

  function Min(x: int, y: int): int {
    if x <= y then x else y
  }

  predicate IsBinary(g: Grid) {
    forall i, j :: 0 <= i < |g| && 0 <= j < |g[i]| ==> g[i][j] == 0 || g[i][j] == 1
  }

  /** How many block rows (and block columns) a grid of side n has: the length of range(n - 1). */
  function Span(g: Grid): nat {
    if |g| == 0 then 0 else |g| - 1
  }

  predicate IsBlock(g: Grid, i: int, j: int) {
    IsSquare(g) && 0 <= i < Span(g) && 0 <= j < Span(g)
  }

  /** The test applied to the block with top-left cell (i, j): sum 2, both diagonals constant. */
  predicate IsCrosscutAt(g: Grid, i: int, j: int)
    requires IsBlock(g, i, j)
  {
    var topLeft, topRight, bottomLeft, bottomRight := g[i][j], g[i][j + 1], g[i + 1][j], g[i + 1][j + 1];
    topLeft + topRight + bottomLeft + bottomRight == 2 &&
    Abs(topLeft - bottomRight) == Abs(topRight - bottomLeft) && Abs(topRight - bottomLeft) == 0
  }

  /** The pair recorded for the block at (i, j): its diagonal when the top-left cell is 1, else its anti-diagonal. */
  function PairAt(g: Grid, i: int, j: int): Pair
    requires IsBlock(g, i, j)
  {
    if g[i][j] == 1 then ((i, j), (i + 1, j + 1)) else ((i, j + 1), (i + 1, j))
  }

  /** The top-left cell of the block a pair comes from. */
  function TopLeft(p: Pair): Cell {
    (p.0.0, Min(p.0.1, p.1.1))
  }

  /** `p` is the pair recorded for a crosscut block of `g`. */
  predicate Reported(g: Grid, p: Pair) {
    var tl := TopLeft(p);
    IsBlock(g, tl.0, tl.1) && IsCrosscutAt(g, tl.0, tl.1) && p == PairAt(g, tl.0, tl.1)
  }

  predicate Precedes(a: Cell, b: Cell) {
    a.0 < b.0 || (a.0 == b.0 && a.1 < b.1)
  }

  /** Strictly increasing in row-major order of the top-left cells (hence without repetition). */
  predicate RowMajor(cuts: seq<Pair>) {
    forall k, l :: 0 <= k < l < |cuts| ==> Precedes(TopLeft(cuts[k]), TopLeft(cuts[l]))
  }

  /** Every cell of every pair lies in the grid. */
  predicate CellsInGrid(g: Grid, cuts: seq<Pair>) {
    forall k :: 0 <= k < |cuts| ==> InGrid(g, cuts[k].0) && InGrid(g, cuts[k].1)
  }

  lemma ReportedInGrid(g: Grid, p: Pair)
    requires Reported(g, p)
    ensures InGrid(g, p.0) && InGrid(g, p.1)
  {
  }

  /** The crosscuts among blocks (i, 0), ..., (i, j - 1) of block row i, left to right. */
  function RowCrosscuts(g: Grid, i: int, j: int): (r: seq<Pair>)
    requires IsSquare(g) && 0 <= i < Span(g) && 0 <= j <= Span(g)
    decreases j
  {
    if j == 0 then []
    else
      var before := RowCrosscuts(g, i, j - 1);
      if IsCrosscutAt(g, i, j - 1) then before + [PairAt(g, i, j - 1)] else before
  }

  /** The crosscuts of block rows 0, ..., i - 1, in row-major order. */
  function CrosscutsBefore(g: Grid, i: int): (r: seq<Pair>)
    requires IsSquare(g) && 0 <= i <= Span(g)
    decreases i
  {
    if i == 0 then [] else CrosscutsBefore(g, i - 1) + RowCrosscuts(g, i - 1, Span(g))
  }

  /** All crosscuts of `g`, in row-major order of their blocks; every cell they name lies in the grid. */
  function Crosscuts(g: Grid): (r: seq<Pair>)
    requires IsSquare(g)
    ensures CellsInGrid(g, r)
  {
    var r := CrosscutsBefore(g, Span(g));
    CrosscutsBeforeSound(g, Span(g));
    forall k | 0 <= k < |r|
      ensures InGrid(g, r[k].0) && InGrid(g, r[k].1)
    {
      ReportedInGrid(g, r[k]);
    }
    r
  }

  /**
   * Row i yields at most one pair per block, each the pair of a crosscut
   * block of row i to the left of column j, strictly left to right.
   */
  lemma {:induction false} RowCrosscutsSound(g: Grid, i: int, j: int)
    requires IsSquare(g) && 0 <= i < Span(g) && 0 <= j <= Span(g)
    ensures var r := RowCrosscuts(g, i, j);
      && |r| <= j
      && (forall k :: 0 <= k < |r| ==> Reported(g, r[k]) && TopLeft(r[k]).0 == i && TopLeft(r[k]).1 < j)
      && RowMajor(r)
    decreases j
  {
    if j > 0 {
      RowCrosscutsSound(g, i, j - 1);
      if IsCrosscutAt(g, i, j - 1) {
        var before := RowCrosscuts(g, i, j - 1);
        var p := PairAt(g, i, j - 1);
        assert TopLeft(p) == (i, j - 1);
        var r := before + [p];
        forall k, l | 0 <= k < l < |r|
          ensures Precedes(TopLeft(r[k]), TopLeft(r[l]))
        {
          if l < |before| {
            assert r[k] == before[k] && r[l] == before[l];
          } else {
            assert r[k] == before[k] && r[l] == p;
          }
        }
      }
    }
  }

  lemma {:induction false} CrosscutsBeforeSound(g: Grid, i: int)
    requires IsSquare(g) && 0 <= i <= Span(g)
    ensures var r := CrosscutsBefore(g, i);
      && |r| <= i * Span(g)
      && (forall k :: 0 <= k < |r| ==> Reported(g, r[k]) && TopLeft(r[k]).0 < i)
      && RowMajor(r)
    decreases i
  {
    if i > 0 {
      CrosscutsBeforeSound(g, i - 1);
      RowCrosscutsSound(g, i - 1, Span(g));
      var before, row := CrosscutsBefore(g, i - 1), RowCrosscuts(g, i - 1, Span(g));
      RowMajorAppend(before, row, i - 1);
      assert (i - 1) * Span(g) + Span(g) == i * Span(g);
      var r := before + row;
      forall k | 0 <= k < |r|
        ensures Reported(g, r[k]) && TopLeft(r[k]).0 < i
      {
        if k < |before| {
          assert r[k] == before[k];
        } else {
          assert r[k] == row[k - |before|];
        }
      }
    }
  }

  /**
   * At most one crosscut per block, each the pair of a crosscut block,
   * strictly increasing in row-major order (hence no repetition).
   */
  lemma CrosscutsSound(g: Grid)
    requires IsSquare(g)
    ensures var r := Crosscuts(g);
      && |r| <= Span(g) * Span(g)
      && (forall k :: 0 <= k < |r| ==> Reported(g, r[k]))
      && RowMajor(r)
  {
    CrosscutsBeforeSound(g, Span(g));
  }

  /** Row-major order survives appending a block row below all earlier ones. */
  lemma RowMajorAppend(before: seq<Pair>, row: seq<Pair>, i: int)
    requires RowMajor(before) && RowMajor(row)
    requires forall k :: 0 <= k < |before| ==> TopLeft(before[k]).0 < i
    requires forall k :: 0 <= k < |row| ==> TopLeft(row[k]).0 == i
    ensures RowMajor(before + row)
  {
    var r := before + row;
    forall k, l | 0 <= k < l < |r|
      ensures Precedes(TopLeft(r[k]), TopLeft(r[l]))
    {
      if l < |before| {
        assert r[k] == before[k] && r[l] == before[l];
      } else if k >= |before| {
        assert r[k] == row[k - |before|] && r[l] == row[l - |before|];
      } else {
        assert r[k] == before[k] && r[l] == row[l - |before|];
      }
    }
  }

  /** Every crosscut block of the first j blocks of row i is reported. */
  lemma {:induction false} RowCrosscutsComplete(g: Grid, i: int, j: int, j': int)
    requires IsSquare(g) && 0 <= i < Span(g) && 0 <= j' < j <= Span(g)
    requires IsCrosscutAt(g, i, j')
    ensures PairAt(g, i, j') in RowCrosscuts(g, i, j)
    decreases j
  {
    if j' < j - 1 {
      RowCrosscutsComplete(g, i, j - 1, j');
    }
  }

  lemma {:induction false} CrosscutsBeforeComplete(g: Grid, i: int, i': int, j': int)
    requires IsSquare(g) && 0 <= i' < i <= Span(g) && 0 <= j' < Span(g)
    requires IsCrosscutAt(g, i', j')
    ensures PairAt(g, i', j') in CrosscutsBefore(g, i)
    decreases i
  {
    if i' < i - 1 {
      CrosscutsBeforeComplete(g, i - 1, i', j');
    } else {
      RowCrosscutsComplete(g, i', Span(g), j');
    }
  }

  /** A block's pair is listed if and only if the block is a crosscut. */
  lemma CrosscutsExact(g: Grid, i: int, j: int)
    requires IsBlock(g, i, j)
    ensures PairAt(g, i, j) in Crosscuts(g) <==> IsCrosscutAt(g, i, j)
  {
    CrosscutsSound(g);
    if IsCrosscutAt(g, i, j) {
      CrosscutsBeforeComplete(g, Span(g), i, j);
    }
  }

  /** On a 0/1 grid a crosscut block is exactly [[1,0],[0,1]] or [[0,1],[1,0]]. */
  lemma CrosscutPatterns(g: Grid, i: int, j: int)
    requires IsBlock(g, i, j) && IsBinary(g)
    ensures IsCrosscutAt(g, i, j) <==>
      (g[i][j] == 1 && g[i][j + 1] == 0 && g[i + 1][j] == 0 && g[i + 1][j + 1] == 1) ||
      (g[i][j] == 0 && g[i][j + 1] == 1 && g[i + 1][j] == 1 && g[i + 1][j + 1] == 0)
  {
    assert g[i][j] == 0 || g[i][j] == 1;
    assert g[i][j + 1] == 0 || g[i][j + 1] == 1;
    assert g[i + 1][j] == 0 || g[i + 1][j] == 1;
    assert g[i + 1][j + 1] == 0 || g[i + 1][j + 1] == 1;
  }

  /**
   * On a 0/1 grid each reported pair is exactly the two 1-valued cells of
   * its block: both its cells hold 1 and the other two cells of the block
   * hold 0.
   */
  lemma ReportedPairIsOnes(g: Grid, p: Pair)
    requires IsBinary(g) && Reported(g, p)
    ensures Get(g, p.0) == 1 && Get(g, p.1) == 1
    ensures var tl := TopLeft(p);
      forall c: Cell :: tl.0 <= c.0 <= tl.0 + 1 && tl.1 <= c.1 <= tl.1 + 1 && c != p.0 && c != p.1 ==>
        Get(g, c) == 0
  {
    var tl := TopLeft(p);
    CrosscutPatterns(g, tl.0, tl.1);
  }

  lemma CrosscutCellsAreOnes(g: Grid)
    requires IsSquare(g) && IsBinary(g)
    ensures forall k :: 0 <= k < |Crosscuts(g)| ==>
      Get(g, Crosscuts(g)[k].0) == 1 && Get(g, Crosscuts(g)[k].1) == 1
  {
    var cuts := Crosscuts(g);
    CrosscutsSound(g);
    forall k | 0 <= k < |cuts|
      ensures Get(g, cuts[k].0) == 1 && Get(g, cuts[k].1) == 1
    {
      ReportedPairIsOnes(g, cuts[k]);
    }
  }

  lemma RowCrosscutsNext(g: Grid, i: int, j: int, prefix: seq<Pair>)
    requires IsSquare(g) && 0 <= i < Span(g) && 0 <= j < Span(g)
    ensures prefix + RowCrosscuts(g, i, j + 1) ==
      if IsCrosscutAt(g, i, j) then prefix + RowCrosscuts(g, i, j) + [PairAt(g, i, j)]
      else prefix + RowCrosscuts(g, i, j)
  {
  }

  /** The detection loop: `Crosscuts` of the array's contents, scanned in place. */
  method GetCrosscuts(grid: array2<int>) returns (crosscuts: seq<Pair>)
    requires grid.Length0 == grid.Length1
    ensures crosscuts == Crosscuts(FromArray(grid))
  {
    ghost var g := FromArray(grid);
    assert IsSquare(g);
    var n := grid.Length0;
    crosscuts := [];
    var i := 0;
    while i < n - 1
      invariant 0 <= i <= Span(g)
      invariant crosscuts == CrosscutsBefore(g, i)
    {
      crosscuts := ScanBlockRow(grid, i, crosscuts);
      i := i + 1;
    }
    assert i == Span(g);
  }

  /** The inner loop of the detector: appends the crosscuts of block row i, left to right. */
  method ScanBlockRow(grid: array2<int>, i: int, prefix: seq<Pair>) returns (crosscuts: seq<Pair>)
    requires grid.Length0 == grid.Length1 && 0 <= i < grid.Length0 - 1
    ensures crosscuts == prefix + RowCrosscuts(FromArray(grid), i, Span(FromArray(grid)))
  {
    ghost var g := FromArray(grid);
    var n := grid.Length0;
    crosscuts := prefix;
    var j := 0;
    while j < n - 1
      invariant 0 <= j <= Span(g)
      invariant crosscuts == prefix + RowCrosscuts(g, i, j)
    {
      var topLeft, topRight := grid[i, j], grid[i, j + 1];
      var bottomLeft, bottomRight := grid[i + 1, j], grid[i + 1, j + 1];
      assert topLeft == g[i][j] && topRight == g[i][j + 1] && bottomLeft == g[i + 1][j] && bottomRight == g[i + 1][j + 1];
      if topLeft + topRight + bottomLeft + bottomRight == 2 &&
         Abs(topLeft - bottomRight) == Abs(topRight - bottomLeft) && Abs(topRight - bottomLeft) == 0
      {
        crosscuts := crosscuts + [if topLeft == 1 then ((i, j), (i + 1, j + 1)) else ((i, j + 1), (i + 1, j))];
      }
      RowCrosscutsNext(g, i, j, prefix);
      j := j + 1;
    }
  }

  /** The number of crosscuts, at most one per block. */
  method CountCrosscuts(grid: array2<int>) returns (count: nat)
    requires grid.Length0 == grid.Length1
    ensures count == |Crosscuts(FromArray(grid))|
    ensures count <= Span(FromArray(grid)) * Span(FromArray(grid))
  {
    var crosscuts := GetCrosscuts(grid);
    count := |crosscuts|;
    CrosscutsSound(FromArray(grid));
  }

  /** `c` is one of the cells of some pair in `cuts`. */
  predicate Occurs(c: Cell, cuts: seq<Pair>) {
    exists k :: 0 <= k < |cuts| && (cuts[k].0 == c || cuts[k].1 == c)
  }

  /** The player's stones taking part in some crosscut: cells of the pairs whose value is `player`. */
  function ResolvingStones(g: Grid, cuts: seq<Pair>, player: int): (r: set<Cell>)
    requires CellsInGrid(g, cuts)
    ensures forall c :: c in r <==> Occurs(c, cuts) && InGrid(g, c) && Get(g, c) == player
    decreases |cuts|
  {
    if cuts == [] then {}
    else
      var last := cuts[|cuts| - 1];
      var rest := cuts[..|cuts| - 1];
      assert forall k :: 0 <= k < |rest| ==> rest[k] == cuts[k];
      var r := ResolvingStones(g, rest, player)
        + (if Get(g, last.0) == player then {last.0} else {})
        + (if Get(g, last.1) == player then {last.1} else {});
      assert forall c :: Occurs(c, cuts) ==> Occurs(c, rest) || c == last.0 || c == last.1;
      r
  }

  /** Collects the resolving stones pair by pair, cell by cell, into a set: `ResolvingStones` of the array's contents. */
  method GetResolvingStones(grid: array2<int>, crosscuts: seq<Pair>, player: int) returns (resolvingStones: set<Cell>)
    requires CellsInGrid(FromArray(grid), crosscuts)
    ensures resolvingStones == ResolvingStones(FromArray(grid), crosscuts, player)
  {
    ghost var g := FromArray(grid);
    resolvingStones := {};
    for k := 0 to |crosscuts|
      invariant resolvingStones == ResolvingStones(g, crosscuts[..k], player)
    {
      var crosscut := crosscuts[k];
      for t := 0 to 2
        invariant resolvingStones ==
          ResolvingStones(g, crosscuts[..k], player)
          + (if t > 0 && Get(g, crosscut.0) == player then {crosscut.0} else {})
          + (if t > 1 && Get(g, crosscut.1) == player then {crosscut.1} else {})
      {
        var stone := if t == 0 then crosscut.0 else crosscut.1;
        if grid[stone.0, stone.1] == player {
          resolvingStones := resolvingStones + {stone};
        }
      }
      assert crosscuts[..k + 1][..k] == crosscuts[..k];
    }
    assert crosscuts[..|crosscuts|] == crosscuts;
  }

  /** The cells of `p` holding the enemy value 1 - player, when `stone` is one of its cells. */
  function PairEnemies(g: Grid, p: Pair, player: int, stone: Cell): seq<Cell>
    requires InGrid(g, p.0) && InGrid(g, p.1)
  {
    if stone == p.0 || stone == p.1 then
      (if Get(g, p.0) == 1 - player then [p.0] else []) + (if Get(g, p.1) == 1 - player then [p.1] else [])
    else []
  }

  /** `e` is an enemy cell of a pair of `cuts` that also contains `stone`. */
  predicate EnemyOf(g: Grid, cuts: seq<Pair>, player: int, stone: Cell, e: Cell)
    requires CellsInGrid(g, cuts)
  {
    exists k :: 0 <= k < |cuts| && (cuts[k].0 == stone || cuts[k].1 == stone) &&
      (cuts[k].0 == e || cuts[k].1 == e) && Get(g, e) == 1 - player
  }

  /** The enemy candidates of `stone`, in crosscut order (a cell may appear more than once). */
  function Enemies(g: Grid, cuts: seq<Pair>, player: int, stone: Cell): (r: seq<Cell>)
    requires CellsInGrid(g, cuts)
    ensures forall e :: e in r <==> EnemyOf(g, cuts, player, stone, e)
    decreases |cuts|
  {
    if cuts == [] then []
    else
      var last := cuts[|cuts| - 1];
      var rest := cuts[..|cuts| - 1];
      assert forall k :: 0 <= k < |rest| ==> rest[k] == cuts[k];
      var r := Enemies(g, rest, player, stone) + PairEnemies(g, last, player, stone);
      assert forall e :: EnemyOf(g, cuts, player, stone, e) ==>
        EnemyOf(g, rest, player, stone, e) || e in PairEnemies(g, last, player, stone);
      r
  }

  /** Every cell of every pair holds 1. */
  predicate AllOnes(g: Grid, cuts: seq<Pair>) {
    CellsInGrid(g, cuts) &&
    forall k :: 0 <= k < |cuts| ==> Get(g, cuts[k].0) == 1 && Get(g, cuts[k].1) == 1
  }

  lemma StonesOfOnes(g: Grid, cuts: seq<Pair>, player: int)
    requires AllOnes(g, cuts)
    ensures ResolvingStones(g, cuts, player) != {} ==> player == 1
  {
    if ResolvingStones(g, cuts, player) != {} {
      var c :| c in ResolvingStones(g, cuts, player);
      assert Occurs(c, cuts);
    }
  }

  lemma EnemiesOfOnes(g: Grid, cuts: seq<Pair>, player: int, stone: Cell)
    requires AllOnes(g, cuts)
    ensures Enemies(g, cuts, player, stone) != [] ==> player == 0
  {
    if Enemies(g, cuts, player, stone) != [] {
      var e := Enemies(g, cuts, player, stone)[0];
      assert EnemyOf(g, cuts, player, stone, e);
    }
  }

  /**
   * On a 0/1 grid the recorded cells all hold 1, so a player has resolving
   * stones only when it is 1 and enemy candidates only when it is 0: the two
   * are never both present.
   */
  lemma StonesAndEnemiesExclusive(g: Grid, player: int, stone: Cell)
    requires IsSquare(g) && IsBinary(g)
    ensures ResolvingStones(g, Crosscuts(g), player) != {} ==> player == 1
    ensures Enemies(g, Crosscuts(g), player, stone) != [] ==> player == 0
    ensures ResolvingStones(g, Crosscuts(g), player) == {} || Enemies(g, Crosscuts(g), player, stone) == []
  {
    CrosscutCellsAreOnes(g);
    StonesOfOnes(g, Crosscuts(g), player);
    EnemiesOfOnes(g, Crosscuts(g), player, stone);
  }

  /** The grid after exchanging the values of `stone` and `enemy`. */
  function SwapCells(g: Grid, stone: Cell, enemy: Cell): (r: Grid)
    requires InGrid(g, stone) && InGrid(g, enemy)
    ensures |r| == |g| && forall i :: 0 <= i < |g| ==> |r[i]| == |g[i]|
    ensures Get(r, stone) == Get(g, enemy) && Get(r, enemy) == Get(g, stone)
    ensures forall i, j :: 0 <= i < |g| && 0 <= j < |g[i]| && (i, j) != stone && (i, j) != enemy ==>
      r[i][j] == g[i][j]
  {
    Put(Put(g, stone, Get(g, enemy)), enemy, Get(g, stone))
  }

  /** Swapping the same two cells again restores the grid. */
  lemma SwapTwiceRestores(g: Grid, stone: Cell, enemy: Cell)
    requires InGrid(g, stone) && InGrid(g, enemy)
    ensures SwapCells(SwapCells(g, stone, enemy), stone, enemy) == g
  {
    var back := SwapCells(SwapCells(g, stone, enemy), stone, enemy);
    SameCells(back, g);
  }

  lemma SwapKeepsShape(g: Grid, stone: Cell, enemy: Cell)
    requires IsSquare(g) && InGrid(g, stone) && InGrid(g, enemy)
    ensures IsSquare(SwapCells(g, stone, enemy))
    ensures IsBinary(g) ==> IsBinary(SwapCells(g, stone, enemy))
  {
  }

  function RowSum(row: seq<int>): int {
    if row == [] then 0 else RowSum(row[..|row| - 1]) + row[|row| - 1]
  }

  function GridSum(g: Grid): int {
    if g == [] then 0 else GridSum(g[..|g| - 1]) + RowSum(g[|g| - 1])
  }

  lemma {:induction false} RowSumUpdate(row: seq<int>, j: int, v: int)
    requires 0 <= j < |row|
    ensures RowSum(row[j := v]) == RowSum(row) - row[j] + v
    decreases |row|
  {
    var last := |row| - 1;
    assert row[j := v][..last] == if j < last then row[..last][j := v] else row[..last];
    if j < last {
      RowSumUpdate(row[..last], j, v);
    }
  }

  lemma {:induction false} GridSumUpdate(g: Grid, c: Cell, v: int)
    requires InGrid(g, c)
    ensures GridSum(Put(g, c, v)) == GridSum(g) - Get(g, c) + v
    decreases |g|
  {
    var last := |g| - 1;
    var r := Put(g, c, v);
    if c.0 < last {
      assert r[..last] == Put(g[..last], c, v);
      GridSumUpdate(g[..last], c, v);
      assert r[last] == g[last];
    } else {
      assert r[..last] == g[..last];
      RowSumUpdate(g[last], c.1, v);
    }
  }

  /** A swap neither creates nor destroys stones: the sum of the grid is unchanged. */
  lemma SwapKeepsSum(g: Grid, stone: Cell, enemy: Cell)
    requires InGrid(g, stone) && InGrid(g, enemy)
    ensures GridSum(SwapCells(g, stone, enemy)) == GridSum(g)
  {
    var once := Put(g, stone, Get(g, enemy));
    GridSumUpdate(g, stone, Get(g, enemy));
    GridSumUpdate(once, enemy, Get(g, stone));
  }

  /** Exchanges two cells of the grid in place. */
  method Swap(grid: array2<int>, stone: Cell, enemy: Cell)
    requires 0 <= stone.0 < grid.Length0 && 0 <= stone.1 < grid.Length1
    requires 0 <= enemy.0 < grid.Length0 && 0 <= enemy.1 < grid.Length1
    modifies grid
    ensures FromArray(grid) == SwapCells(old(FromArray(grid)), stone, enemy)
  {
    ghost var before := FromArray(grid);
    var enemyValue, stoneValue := grid[enemy.0, enemy.1], grid[stone.0, stone.1];
    grid[stone.0, stone.1] := enemyValue;
    grid[enemy.0, enemy.1] := stoneValue;
    SameCells(FromArray(grid), SwapCells(before, stone, enemy));
  }

  /** `stone` and `enemy` may be swapped now: a resolving stone of `player` and one of its enemy candidates. */
  ghost predicate CanSwap(g: Grid, player: int, stone: Cell, enemy: Cell) {
    && IsSquare(g) && InGrid(g, stone) && InGrid(g, enemy)
    && stone in ResolvingStones(g, Crosscuts(g), player)
    && enemy in Enemies(g, Crosscuts(g), player, stone)
  }

  /** A resolving stone and one of its enemy candidates are a permitted swap. */
  lemma OfferedPairCanSwap(g: Grid, player: int, stone: Cell, enemy: Cell)
    requires IsSquare(g)
    requires stone in ResolvingStones(g, Crosscuts(g), player)
    requires enemy in Enemies(g, Crosscuts(g), player, stone)
    ensures CanSwap(g, player, stone, enemy)
  {
    var cuts := Crosscuts(g);
    assert EnemyOf(g, cuts, player, stone, enemy);
    var k :| 0 <= k < |cuts| && (cuts[k].0 == enemy || cuts[k].1 == enemy);
    assert InGrid(g, cuts[k].0) && InGrid(g, cuts[k].1);
  }

  /**
   * Replays a resolution by `player` from `start`: each swap of `swaps` in
   * turn, as long as each is permitted on the grid reached so far. A
   * history with a swap that is not permitted replays to `None`.
   */
  ghost function Replay(player: int, start: Grid, swaps: seq<(Cell, Cell)>): Option<Grid>
    decreases |swaps|
  {
    if swaps == [] then Some(start)
    else
      var before := Replay(player, start, swaps[..|swaps| - 1]);
      var swap := swaps[|swaps| - 1];
      if before.Some? && CanSwap(before.value, player, swap.0, swap.1)
      then Some(SwapCells(before.value, swap.0, swap.1))
      else None
  }

  lemma ReplayExtend(player: int, start: Grid, swaps: seq<(Cell, Cell)>, g: Grid, stone: Cell, enemy: Cell)
    requires Replay(player, start, swaps) == Some(g) && CanSwap(g, player, stone, enemy)
    ensures Replay(player, start, swaps + [(stone, enemy)]) == Some(SwapCells(g, stone, enemy))
  {
    assert (swaps + [(stone, enemy)])[..|swaps|] == swaps;
  }

  /** Both diagonals of a crosscut are constant, so the two cells of a recorded pair hold the same value. */
  lemma ReportedPairSameValue(g: Grid, p: Pair)
    requires Reported(g, p)
    ensures Get(g, p.0) == Get(g, p.1)
  {
    var tl := TopLeft(p);
    assert IsCrosscutAt(g, tl.0, tl.1);
  }

  /** Pairs whose two cells hold equal values never give an enemy to a cell holding `player`. */
  lemma {:induction false} EqualPairsHaveNoEnemies(g: Grid, cuts: seq<Pair>, player: int, stone: Cell)
    requires CellsInGrid(g, cuts) && InGrid(g, stone) && Get(g, stone) == player
    requires forall k :: 0 <= k < |cuts| ==> Get(g, cuts[k].0) == Get(g, cuts[k].1)
    ensures Enemies(g, cuts, player, stone) == []
    decreases |cuts|
  {
    if cuts != [] {
      var rest := cuts[..|cuts| - 1];
      assert forall k :: 0 <= k < |rest| ==> rest[k] == cuts[k];
      EqualPairsHaveNoEnemies(g, rest, player, stone);
      var last := cuts[|cuts| - 1];
      assert Get(g, last.0) == Get(g, last.1);
      assert PairEnemies(g, last, player, stone) == [];
    }
  }

  /**
   * On any grid, a resolving stone has no enemy candidates: an enemy would
   * share a recorded pair with the stone, hence its value `player`, but an
   * enemy holds `1 - player`, and no integer equals `1 - ` itself.
   */
  lemma ResolvingStoneHasNoEnemies(g: Grid, player: int, stone: Cell)
    requires IsSquare(g) && stone in ResolvingStones(g, Crosscuts(g), player)
    ensures Enemies(g, Crosscuts(g), player, stone) == []
  {
    var cuts := Crosscuts(g);
    CrosscutsSound(g);
    forall k | 0 <= k < |cuts|
      ensures Get(g, cuts[k].0) == Get(g, cuts[k].1)
    {
      ReportedPairSameValue(g, cuts[k]);
    }
    EqualPairsHaveNoEnemies(g, cuts, player, stone);
  }

  /** Hence the swap of the resolution loop is never permitted, on any grid. */
  lemma NoSwapAnyGrid(g: Grid, player: int, stone: Cell, enemy: Cell)
    requires IsSquare(g)
    ensures !CanSwap(g, player, stone, enemy)
  {
    if stone in ResolvingStones(g, Crosscuts(g), player) {
      ResolvingStoneHasNoEnemies(g, player, stone);
    }
  }

  /** So the only history that replays, from any grid, is the empty one. */
  lemma {:induction false} ReplayNeverSwaps(player: int, start: Grid, swaps: seq<(Cell, Cell)>)
    requires IsSquare(start)
    ensures Replay(player, start, swaps) == if swaps == [] then Some(start) else None
    decreases |swaps|
  {
    if swaps != [] {
      var prefix := swaps[..|swaps| - 1];
      ReplayNeverSwaps(player, start, prefix);
      NoSwapAnyGrid(start, player, swaps[|swaps| - 1].0, swaps[|swaps| - 1].1);
    }
  }

  /** Why the resolution loop stopped. */
  datatype ResolveOutcome =
    | NoCrosscuts                  // no crosscut is left
    | NoResolvingStones            // the player has no stone in any crosscut
    | NoEnemies(stone: Cell)       // the chosen stone has no enemy candidate
    | InputExhausted               // the sequence of answers ran out

  /** What each way of stopping says about the final grid `g`. */
  ghost predicate Stopped(g: Grid, player: int, outcome: ResolveOutcome)
    requires IsSquare(g)
  {
    var cuts := Crosscuts(g);
    match outcome
    case NoCrosscuts => cuts == []
    case NoResolvingStones => cuts != [] && ResolvingStones(g, cuts, player) == {}
    case NoEnemies(stone) =>
      cuts != [] && stone in ResolvingStones(g, cuts, player) && Enemies(g, cuts, player, stone) == []
    case InputExhausted => cuts != [] && ResolvingStones(g, cuts, player) != {}
  }

  /**
   * The resolution loop run on grid values: from grid `g`, with the answers
   * `inputs[next..]` still to be read, the outcome it stops with and the
   * grid it leaves. A rejected stone costs one answer, a rejected enemy two,
   * and an accepted pair is swapped before the grid is scanned again.
   */
  ghost function Run(player: int, g: Grid, inputs: seq<Cell>, next: nat): (ResolveOutcome, Grid)
    requires IsSquare(g) && next <= |inputs|
    decreases |inputs| - next
  {
    var cuts := Crosscuts(g);
    if cuts == [] then (NoCrosscuts, g)
    else
      var stones := ResolvingStones(g, cuts, player);
      if stones == {} then (NoResolvingStones, g)
      else if next == |inputs| then (InputExhausted, g)
      else
        var stone := inputs[next];
        if stone !in stones then Run(player, g, inputs, next + 1)
        else
          var enemies := Enemies(g, cuts, player, stone);
          if enemies == [] then (NoEnemies(stone), g)
          else if next + 1 == |inputs| then (InputExhausted, g)
          else
            var enemy := inputs[next + 1];
            if enemy !in enemies then Run(player, g, inputs, next + 2)
            else
              OfferedPairCanSwap(g, player, stone, enemy);
              SwapKeepsShape(g, stone, enemy);
              Run(player, SwapCells(g, stone, enemy), inputs, next + 2)
  }

  /** Every run stops for a reason that holds of the grid it leaves. */
  lemma {:induction false} RunStops(player: int, g: Grid, inputs: seq<Cell>, next: nat)
    requires IsSquare(g) && next <= |inputs|
    ensures var (outcome, final) := Run(player, g, inputs, next);
      IsSquare(final) && Stopped(final, player, outcome)
    decreases |inputs| - next
  {
    var cuts := Crosscuts(g);
    if cuts != [] && ResolvingStones(g, cuts, player) != {} && next < |inputs| {
      var stone := inputs[next];
      if stone !in ResolvingStones(g, cuts, player) {
        RunStops(player, g, inputs, next + 1);
      } else if Enemies(g, cuts, player, stone) != [] && next + 1 < |inputs| {
        var enemy := inputs[next + 1];
        if enemy !in Enemies(g, cuts, player, stone) {
          RunStops(player, g, inputs, next + 2);
        } else {
          OfferedPairCanSwap(g, player, stone, enemy);
          SwapKeepsShape(g, stone, enemy);
          RunStops(player, SwapCells(g, stone, enemy), inputs, next + 2);
        }
      }
    }
  }

  /** A run never swaps: it leaves the grid as it found it. */
  lemma {:induction false} RunKeepsGrid(player: int, g: Grid, inputs: seq<Cell>, next: nat)
    requires IsSquare(g) && next <= |inputs|
    ensures Run(player, g, inputs, next).1 == g
    decreases |inputs| - next
  {
    var cuts := Crosscuts(g);
    if cuts != [] && ResolvingStones(g, cuts, player) != {} && next < |inputs| {
      var stone := inputs[next];
      if stone !in ResolvingStones(g, cuts, player) {
        RunKeepsGrid(player, g, inputs, next + 1);
      } else {
        ResolvingStoneHasNoEnemies(g, player, stone);
      }
    }
  }

  /**
   * The prompts of one pass of the resolution loop on grid contents `g`
   * with crosscuts, given the resolving stones offered: read a stone, offer
   * its enemies, read an enemy. It either stops the loop, or consumes at
   * least one answer; a pair of answers that are both among the offered
   * cells is `accepted` and is a permitted swap.
   */
  method PromptRound(g: Grid, player: int, crosscuts: seq<Pair>, resolvingStones: set<Cell>, inputs: seq<Cell>, next: nat)
    returns (stop: bool, outcome: ResolveOutcome, next': nat, accepted: bool, stone: Cell, enemy: Cell)
    requires IsSquare(g) && crosscuts == Crosscuts(g) && crosscuts != []
    requires resolvingStones == ResolvingStones(g, crosscuts, player)
    requires next <= |inputs|
    ensures next <= next' <= |inputs|
    ensures stop <==> (resolvingStones == {} || next == |inputs| ||
      (inputs[next] in resolvingStones &&
       (Enemies(g, crosscuts, player, inputs[next]) == [] || next + 1 == |inputs|)))
    ensures stop ==> !accepted && outcome != NoCrosscuts && Stopped(g, player, outcome)
    ensures stop && resolvingStones == {} ==> outcome == NoResolvingStones
    ensures stop && outcome.NoEnemies? ==> next < |inputs| && outcome.stone == inputs[next]
    ensures stop && outcome == InputExhausted ==> next' == |inputs|
    ensures !stop ==> next' == if inputs[next] in resolvingStones then next + 2 else next + 1
    ensures !stop ==> (accepted <==>
      inputs[next] in resolvingStones && inputs[next + 1] in Enemies(g, crosscuts, player, inputs[next]))
    ensures accepted ==> CanSwap(g, player, stone, enemy)
    ensures accepted ==> next' == next + 2 && stone == inputs[next] && enemy == inputs[next + 1]
    ensures stop ==> Run(player, g, inputs, next) == (outcome, g)
    ensures !stop && accepted ==> (IsSquare(SwapCells(g, stone, enemy)) &&
      Run(player, g, inputs, next) == Run(player, SwapCells(g, stone, enemy), inputs, next'))
    ensures !stop && !accepted ==> Run(player, g, inputs, next) == Run(player, g, inputs, next')
  {
    stop, outcome, next', accepted, stone, enemy := true, InputExhausted, next, false, (0, 0), (0, 0);
    if resolvingStones == {} {
      outcome := NoResolvingStones;
      return;
    }
    if next == |inputs| {
      return;
    }
    var resolvingStone := inputs[next];
    next' := next + 1;
    if resolvingStone !in resolvingStones {
      stop := false;
      return;
    }
    var enemies := Enemies(g, crosscuts, player, resolvingStone);
    if enemies == [] {
      outcome := NoEnemies(resolvingStone);
      return;
    }
    if next' == |inputs| {
      return;
    }
    var enemyStone := inputs[next'];
    next' := next' + 1;
    stop := false;
    if enemyStone in enemies {
      accepted, stone, enemy := true, resolvingStone, enemyStone;
      OfferedPairCanSwap(g, player, stone, enemy);
      SwapKeepsShape(g, stone, enemy);
    }
  }

  /** Performs a permitted swap and records it in the resolution history. */
  method ApplySwap(grid: array2<int>, player: int, stone: Cell, enemy: Cell,
                   ghost start: Grid, ghost swaps: seq<(Cell, Cell)>)
    returns (ghost swaps': seq<(Cell, Cell)>)
    requires CanSwap(FromArray(grid), player, stone, enemy)
    requires Replay(player, start, swaps) == Some(FromArray(grid))
    modifies grid
    ensures FromArray(grid) == SwapCells(old(FromArray(grid)), stone, enemy) && IsSquare(FromArray(grid))
    ensures swaps' == swaps + [(stone, enemy)]
    ensures Replay(player, start, swaps') == Some(FromArray(grid))
  {
    ghost var before := FromArray(grid);
    Swap(grid, stone, enemy);
    SwapKeepsShape(before, stone, enemy);
    ReplayExtend(player, start, swaps, before, stone, enemy);
    swaps' := swaps + [(stone, enemy)];
  }

  /**
   * Swap `m` of `swaps` was answered by `inputs[at[m]]` (the stone) and
   * `inputs[at[m] + 1]` (the enemy), the answers are used in order and
   * none lies beyond the first `consumed`.
   */
  ghost predicate AnsweredBy(swaps: seq<(Cell, Cell)>, at: seq<nat>, inputs: seq<Cell>, consumed: nat) {
    && |at| == |swaps| && consumed <= |inputs|
    && (forall m :: 0 <= m < |at| ==> at[m] + 2 <= consumed)
    && (forall m :: 0 <= m < |at| ==> inputs[at[m]] == swaps[m].0 && inputs[at[m] + 1] == swaps[m].1)
    && (forall m, m' :: 0 <= m < m' < |at| ==> at[m] + 2 <= at[m'])
  }

  /** An accepted pair of answers at `next` and `next + 1` extends the record. */
  lemma AnsweredByExtend(swaps: seq<(Cell, Cell)>, at: seq<nat>, inputs: seq<Cell>, next: nat, stone: Cell, enemy: Cell)
    requires AnsweredBy(swaps, at, inputs, next)
    requires next + 2 <= |inputs| && inputs[next] == stone && inputs[next + 1] == enemy
    ensures AnsweredBy(swaps + [(stone, enemy)], at + [next], inputs, next + 2)
  {
  }

  /** Reading more answers keeps the record valid. */
  lemma AnsweredByLater(swaps: seq<(Cell, Cell)>, at: seq<nat>, inputs: seq<Cell>, consumed: nat, consumed': nat)
    requires AnsweredBy(swaps, at, inputs, consumed) && consumed <= consumed' <= |inputs|
    ensures AnsweredBy(swaps, at, inputs, consumed')
  {
  }

  /**
   * The interactive resolution loop. The answers to its two prompts (a
   * resolving stone, then an enemy stone) are taken in order from `inputs`;
   * an answer that is not among the offered cells is rejected and the
   * prompt starts over. `swaps` records the swaps made: replayed from the
   * initial grid, each is permitted in turn and they yield the final grid.
   * Each swap is a pair of consecutive answers (at positions `at`), and
   * `consumed` answers were read in all.
   */
  method Resolve(grid: array2<int>, player: int, inputs: seq<Cell>)
    returns (outcome: ResolveOutcome, ghost swaps: seq<(Cell, Cell)>, ghost at: seq<nat>, ghost consumed: nat)
    requires grid.Length0 == grid.Length1
    modifies grid
    ensures Replay(player, old(FromArray(grid)), swaps) == Some(FromArray(grid))
    ensures IsSquare(FromArray(grid)) && Stopped(FromArray(grid), player, outcome)
    ensures IsSquare(old(FromArray(grid))) && (outcome, FromArray(grid)) == Run(player, old(FromArray(grid)), inputs, 0)
    ensures AnsweredBy(swaps, at, inputs, consumed)
    ensures outcome == InputExhausted ==> consumed == |inputs|
    ensures swaps == [] && FromArray(grid) == old(FromArray(grid))
  {
    ghost var start := FromArray(grid);
    swaps, at := [], [];
    outcome := NoCrosscuts;
    var crosscuts := GetCrosscuts(grid);
    var next := 0;
    while crosscuts != []
      invariant 0 <= next <= |inputs|
      invariant IsSquare(FromArray(grid)) && crosscuts == Crosscuts(FromArray(grid))
      invariant Replay(player, start, swaps) == Some(FromArray(grid))
      invariant Run(player, start, inputs, 0) == Run(player, FromArray(grid), inputs, next)
      invariant AnsweredBy(swaps, at, inputs, next)
      invariant outcome == NoCrosscuts
      decreases |inputs| - next
    {
      var current := FromArray(grid);
      var resolvingStones := GetResolvingStones(grid, crosscuts, player);
      var stop, result, next', accepted, stone, enemy := PromptRound(current, player, crosscuts, resolvingStones, inputs, next);
      if stop {
        AnsweredByLater(swaps, at, inputs, next, next');
        outcome, next := result, next';
        break;
      }
      if accepted {
        AnsweredByExtend(swaps, at, inputs, next, stone, enemy);
        swaps := ApplySwap(grid, player, stone, enemy, start, swaps);
        at := at + [next];
        crosscuts := GetCrosscuts(grid);
      } else {
        AnsweredByLater(swaps, at, inputs, next, next');
      }
      next := next';
    }
    consumed := next;
    ReplayNeverSwaps(player, start, swaps);
  }
}
