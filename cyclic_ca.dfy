/**
 * CyclicCa.ts: a cell in state `s` advances to `(s + 1) % stateCount` when at
 * least `advanceThreshold` cells of its neighbourhood already hold that state.
 */
module CyclicCa {
  import opened Wrappers
  import opened Math
  import opened Grid
  import opened Kernel
  import opened Sequences

  datatype Neighborhood = Moore | VonNeumann

  datatype CyclicCaRule = CyclicCaRule(
    advanceThreshold: int,
    neighborhood: Neighborhood,
    neighborhoodRange: int,
    stateCount: int)

  /** The string value of each enum member. */
  function NeighborhoodName(neighborhood: Neighborhood): string
  {
    match neighborhood
    case Moore => "Moore"
    case VonNeumann => "VonNeumann"
  }

  /** The kernel that getNeighborSummationFunction's choice visits. */
  function NeighborhoodKernel(neighborhood: Neighborhood, range: int): seq<Offset>
  {
    match neighborhood
    case Moore => MooreOffsets(range)
    case VonNeumann => VonNeumannOffsets(range)
  }

  /** One row of sumNeighborsMoore's inner loop: kernelX from `-r` to `r`,
      the centre skipped, each hit added to `sum`. */
  method SumMooreRow(sample: (int, int) -> Option<int>, r: int, nextState: int, cellPosition: Point,
                     kernelY: int, sum0: int) returns (sum: int)
    ensures sum == sum0 + MooreRowCount(sample, cellPosition, nextState, r, kernelY, r)
  {
    sum := sum0;
    var kernelX := -r;
    while kernelX <= r
      invariant -r <= kernelX && (kernelX <= r + 1 || kernelX == -r)
      invariant sum == sum0 + MooreRowCount(sample, cellPosition, nextState, r, kernelY, kernelX - 1)
    {
      if kernelX == 0 && kernelY == 0 {
        // The centre cell is not its own neighbour.
      } else {
        sum := sum + Hit(sample, cellPosition, nextState, Offset(kernelX, kernelY));
      }
      kernelX := kernelX + 1;
    }
  }

  /** sumNeighborsMoore: rows `-r..r`, columns `-r..r`, the centre skipped. */
  method SumNeighborsMoore(sample: (int, int) -> Option<int>, rule: CyclicCaRule, nextState: int, cellPosition: Point)
    returns (sum: int)
    ensures sum == CountMatches(sample, cellPosition, nextState, MooreOffsets(rule.neighborhoodRange))
  {
    var r := rule.neighborhoodRange;
    sum := 0;
    var kernelY := -r;
    ghost var added := -r - 1;  // the last row in `sum`
    while kernelY <= r
      invariant added == kernelY - 1
      invariant -r <= kernelY && (kernelY <= r + 1 || kernelY == -r)
      invariant sum == MooreRowsCount(sample, cellPosition, nextState, r, added)
    {
      MooreRowsCountStep(sample, cellPosition, nextState, r, kernelY);
      sum := SumMooreRow(sample, r, nextState, cellPosition, kernelY, sum);
      added := kernelY;
      kernelY := kernelY + 1;
    }
    MooreRowsCountIsCount(sample, cellPosition, nextState, r, r);
  }

  /** addSample over one row: kernelX from `lo` to `hi` at `kernelY`, each hit added to `sum`. */
  method AddSampleRow(sample: (int, int) -> Option<int>, nextState: int, cellPosition: Point,
                      kernelY: int, lo: int, hi: int, sum0: int) returns (sum: int)
    ensures sum == sum0 + RowCount(sample, cellPosition, nextState, kernelY, lo, hi)
  {
    sum := sum0;
    var kernelX := lo;
    while kernelX <= hi
      invariant lo <= kernelX && (kernelX <= hi + 1 || kernelX == lo)
      invariant sum == sum0 + RowCount(sample, cellPosition, nextState, kernelY, lo, kernelX - 1)
    {
      sum := sum + Hit(sample, cellPosition, nextState, Offset(kernelX, kernelY));
      kernelX := kernelX + 1;
    }
  }

  /** The first loop of sumNeighborsVonNeumann: the top half of the diamond,
      rangeX from 0 up to `r - 1`, the row `-r + rangeX` from `-rangeX` to `rangeX`. */
  method SumTopRows(sample: (int, int) -> Option<int>, r: int, nextState: int, cellPosition: Point, sum0: int)
    returns (sum: int)
    ensures sum == sum0 + TopRowsCount(sample, cellPosition, nextState, r, r)
  {
    sum := sum0;
    var rangeX := 0;
    while rangeX < r
      invariant 0 <= rangeX && (rangeX <= r || rangeX == 0)
      invariant sum == sum0 + TopRowsCount(sample, cellPosition, nextState, r, rangeX)
    {
      sum := AddSampleRow(sample, nextState, cellPosition, -r + rangeX, -rangeX, rangeX, sum);
      rangeX := rangeX + 1;
    }
  }

  /** The last loop of sumNeighborsVonNeumann: the bottom half of the diamond,
      rangeX from `r - 1` down to 0, the row `r - rangeX` from `-rangeX` to `rangeX`. */
  method SumBottomRows(sample: (int, int) -> Option<int>, r: int, nextState: int, cellPosition: Point, sum0: int)
    returns (sum: int)
    ensures sum == sum0 + BottomRowsCount(sample, cellPosition, nextState, r, 0)
  {
    sum := sum0;
    var rangeX := r - 1;
    ghost var added := r;  // the lowest rangeX whose row is in `sum`
    while rangeX >= 0
      invariant added == rangeX + 1
      invariant rangeX <= r - 1 && (rangeX >= -1 || rangeX == r - 1)
      invariant sum == sum0 + BottomRowsCount(sample, cellPosition, nextState, r, added)
    {
      BottomRowsCountStep(sample, cellPosition, nextState, r, rangeX);
      sum := AddSampleRow(sample, nextState, cellPosition, r - rangeX, -rangeX, rangeX, sum);
      added := rangeX;
      rangeX := rangeX - 1;
    }
  }

  /** sumNeighborsVonNeumann: the top rows of the diamond, the middle row
      without the centre, then the bottom rows. */
  method SumNeighborsVonNeumann(sample: (int, int) -> Option<int>, rule: CyclicCaRule, nextState: int,
                                cellPosition: Point) returns (sum: int)
    ensures sum == CountMatches(sample, cellPosition, nextState, VonNeumannOffsets(rule.neighborhoodRange))
  {
    var r := rule.neighborhoodRange;
    sum := SumTopRows(sample, r, nextState, cellPosition, 0);
    // The middle row of the diamond, excluding the center.
    sum := AddSampleRow(sample, nextState, cellPosition, 0, -r, -1, sum);
    sum := AddSampleRow(sample, nextState, cellPosition, 0, 1, r, sum);
    sum := SumBottomRows(sample, r, nextState, cellPosition, sum);
    VonNeumannCountSplit(sample, cellPosition, nextState, r);
  }

  /** getNeighborSummationFunction, applied: the count over the rule's kernel,
      at most the kernel's size. */
  method SumNeighbors(sample: (int, int) -> Option<int>, rule: CyclicCaRule, nextState: int, cellPosition: Point)
    returns (sum: int)
    ensures sum == CountMatches(sample, cellPosition, nextState,
                                NeighborhoodKernel(rule.neighborhood, rule.neighborhoodRange))
    ensures 0 <= sum <= |NeighborhoodKernel(rule.neighborhood, rule.neighborhoodRange)|
  {
    match rule.neighborhood {
      case Moore =>
        sum := SumNeighborsMoore(sample, rule, nextState, cellPosition);
      case VonNeumann =>
        sum := SumNeighborsVonNeumann(sample, rule, nextState, cellPosition);
    }
    CountAtMost(sample, cellPosition, nextState,
                NeighborhoodKernel(rule.neighborhood, rule.neighborhoodRange));
  }

  /** `(state + 1) % stateCount`, with JavaScript's `%`. */
  function NextState(state: int, stateCount: int): int
    requires stateCount != 0
  {
    JsRem(state + 1, stateCount)
  }

  /** The new state of a cell in `state` at `position`: the next state when
      at least `advanceThreshold` of its neighbours already hold it. */
  function CyclicCellNext(sample: (int, int) -> Option<int>, rule: CyclicCaRule, state: int, position: Point): int
    requires rule.stateCount != 0
  {
    var nextState := NextState(state, rule.stateCount);
    var sum := CountMatches(sample, position, nextState, NeighborhoodKernel(rule.neighborhood, rule.neighborhoodRange));
    if sum >= rule.advanceThreshold then nextState else state
  }

  /** The buffer after one cyclic step; every cell reads the old buffer only. */
  function CyclicNext(boundaryRule: BoundaryRule, cells: seq<int>, dimension: Dimension,
                      rule: CyclicCaRule): (next: seq<int>)
    requires WellFormed(cells, dimension) && rule.stateCount != 0
    ensures |next| == |cells|
  {
    seq(|cells|, k requires 0 <= k < |cells| =>
      PositiveFactors(dimension.width, dimension.height, k);
      CyclicCellNext(Sampler(boundaryRule, cells, dimension), rule, cells[k], CellPosition(dimension.width, k)))
  }

  /** The new buffer at the row-major index of `(x, y)` is that cell's next state. */
  lemma CyclicNextAt(boundaryRule: BoundaryRule, cells: seq<int>, dimension: Dimension,
                     rule: CyclicCaRule, x: int, y: int)
    requires WellFormed(cells, dimension) && rule.stateCount != 0
    requires 0 <= x < dimension.width && 0 <= y < dimension.height
    ensures 0 <= dimension.width * y + x < |cells|
    ensures CyclicNext(boundaryRule, cells, dimension, rule)[dimension.width * y + x]
         == CyclicCellNext(Sampler(boundaryRule, cells, dimension), rule, cells[dimension.width * y + x], Point(x, y))
  {
    InsideIndex(dimension, x, y);
    RowMajor(dimension.width, x, y);
  }

  /** The body of updateCyclicCa's loops for the cell `(cellX, cellY)`. */
  method NextCell(sample: (int, int) -> Option<int>, ghost boundaryRule: BoundaryRule, cells: seq<int>, dimension: Dimension,
                  rule: CyclicCaRule, cellX: int, cellY: int) returns (nextCell: int)
    requires sample == Sampler(boundaryRule, cells, dimension)
    requires WellFormed(cells, dimension) && rule.stateCount != 0
    requires 0 <= cellX < dimension.width && 0 <= cellY < dimension.height
    ensures 0 <= dimension.width * cellY + cellX < |cells|
    ensures nextCell == CyclicNext(boundaryRule, cells, dimension, rule)[dimension.width * cellY + cellX]
  {
    var cellIndex := dimension.width * cellY + cellX;
    CyclicNextAt(boundaryRule, cells, dimension, rule, cellX, cellY);
    var state := cells[cellIndex];
    var nextState := NextState(state, rule.stateCount);
    var sum := SumNeighbors(sample, rule, nextState, Point(cellX, cellY));
    nextCell := if sum >= rule.advanceThreshold then nextState else state;
  }

  /** One pass of updateCyclicCa's inner loop: the next states of row `cellY`,
      appended to the row-major prefix of the rows above it. */
  method AppendCyclicRow(sample: (int, int) -> Option<int>, ghost boundaryRule: BoundaryRule, cells: seq<int>,
                         dimension: Dimension, rule: CyclicCaRule, cellY: int, nextCells: seq<int>)
    returns (extended: seq<int>)
    requires sample == Sampler(boundaryRule, cells, dimension)
    requires WellFormed(cells, dimension) && rule.stateCount != 0
    requires 0 <= cellY < dimension.height && |nextCells| == dimension.width * cellY
    requires nextCells == CyclicNext(boundaryRule, cells, dimension, rule)[..|nextCells|]
    ensures |extended| == dimension.width * (cellY + 1) <= |cells|
    ensures extended == CyclicNext(boundaryRule, cells, dimension, rule)[..|extended|]
  {
    ghost var next := CyclicNext(boundaryRule, cells, dimension, rule);
    extended := nextCells;
    for cellX := 0 to dimension.width
      invariant |extended| == dimension.width * cellY + cellX <= |cells|
      invariant extended == next[..|extended|]
    {
      var nextCell := NextCell(sample, boundaryRule, cells, dimension, rule, cellX, cellY);
      PrefixExtend(next, extended, nextCell);
      // `nextCells[cellIndex] = ...` writes at the array's current length: an append.
      extended := extended + [nextCell];
    }
    assert dimension.width * (cellY + 1) == dimension.width * cellY + dimension.width;
  }

  /** updateCyclicCa: fills a fresh buffer in row-major order, then swaps it in. */
  method UpdateCyclicCa(grid: Grid, rule: CyclicCaRule, simulationOptions: SimulationOptions)
    requires grid.Valid() && rule.stateCount != 0
    modifies grid
    ensures grid.dimension == old(grid.dimension) && grid.stateCount == old(grid.stateCount)
    ensures grid.cells == CyclicNext(simulationOptions.boundaryRule, old(grid.cells), grid.dimension, rule)
    ensures grid.Valid()
  {
    var cells, dimension := grid.cells, grid.dimension;
    var sample := Sampler(simulationOptions.boundaryRule, cells, dimension);
    ghost var next := CyclicNext(simulationOptions.boundaryRule, cells, dimension, rule);
    var nextCells: seq<int> := [];
    for cellY := 0 to dimension.height
      modifies {}
      invariant |nextCells| == dimension.width * cellY <= |cells|
      invariant nextCells == next[..|nextCells|]
    {
      nextCells := AppendCyclicRow(sample, simulationOptions.boundaryRule, cells, dimension, rule, cellY, nextCells);
    }
    assert next[..|nextCells|] == next;
    grid.cells := nextCells;
  }

  /**
   * Each new cell either keeps its state or takes the next state. With at
   * least two states and an in-range old state the two differ, and the cell
   * advances exactly when its neighbour sum reaches the threshold.
   */
  lemma CyclicCellAdvances(sample: (int, int) -> Option<int>, rule: CyclicCaRule, state: int, position: Point)
    requires rule.stateCount != 0
    ensures var next := CyclicCellNext(sample, rule, state, position);
      next == state || next == NextState(state, rule.stateCount)
    ensures 2 <= rule.stateCount && 0 <= state < rule.stateCount ==>
      (CyclicCellNext(sample, rule, state, position) == NextState(state, rule.stateCount)
       <==> CountMatches(sample, position, NextState(state, rule.stateCount),
                         NeighborhoodKernel(rule.neighborhood, rule.neighborhoodRange)) >= rule.advanceThreshold)
  {
    if 2 <= rule.stateCount && 0 <= state < rule.stateCount {
      NextStateInRange(state, rule.stateCount);
    }
  }

  /** For an in-range state, the next state is in range and differs from it when there are at least two states. */
  lemma NextStateInRange(state: int, stateCount: int)
    requires 0 < stateCount && 0 <= state < stateCount
    ensures 0 <= NextState(state, stateCount) < stateCount
    ensures NextState(state, stateCount) == if state + 1 == stateCount then 0 else state + 1
  {
    if state + 1 == stateCount {
      DivModUnique(state + 1, 1, 0, stateCount);
    } else {
      DivModUnique(state + 1, 0, state + 1, stateCount);
    }
  }

  /** One step keeps the buffer length and keeps every state in [0, stateCount). */
  lemma CyclicNextInRange(boundaryRule: BoundaryRule, cells: seq<int>, dimension: Dimension, rule: CyclicCaRule)
    requires WellFormed(cells, dimension) && rule.stateCount > 0
    requires forall k :: 0 <= k < |cells| ==> 0 <= cells[k] < rule.stateCount
    ensures WellFormed(CyclicNext(boundaryRule, cells, dimension, rule), dimension)
    ensures var next := CyclicNext(boundaryRule, cells, dimension, rule);
      forall k :: 0 <= k < |next| ==> 0 <= next[k] < rule.stateCount
  {
    var next := CyclicNext(boundaryRule, cells, dimension, rule);
    forall k | 0 <= k < |next|
      ensures 0 <= next[k] < rule.stateCount
    {
      NextStateInRange(cells[k], rule.stateCount);
      PositiveFactors(dimension.width, dimension.height, k);
      CyclicCellAdvances(Sampler(boundaryRule, cells, dimension), rule, cells[k], CellPosition(dimension.width, k));
    }
  }

  /** parseNeighborhood: "VonNeumann" selects von Neumann, every other string Moore. */
  function ParseNeighborhood(neighborhoodString: string): (n: Neighborhood)
    ensures n == VonNeumann <==> neighborhoodString == "VonNeumann"
  {
    if neighborhoodString == "VonNeumann" then VonNeumann else Moore
  }

  /** Each enum member's string value parses back to it. */
  lemma ParseNeighborhoodName(neighborhood: Neighborhood)
    ensures ParseNeighborhood(NeighborhoodName(neighborhood)) == neighborhood
  {
  }

  /** copyCyclicCaRule: a new rule with the same field values. */
  function CopyCyclicCaRule(rule: CyclicCaRule): (copy: CyclicCaRule)
    ensures copy.advanceThreshold == rule.advanceThreshold && copy.neighborhood == rule.neighborhood
    ensures copy.neighborhoodRange == rule.neighborhoodRange && copy.stateCount == rule.stateCount
  {
    CyclicCaRule(rule.advanceThreshold, rule.neighborhood, rule.neighborhoodRange, rule.stateCount)
  }
}
