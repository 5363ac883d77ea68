/**
 * GenerationCa.ts: cells are dead (0), alive (1) or decaying (2 and up).
 * A dead cell is born and a live cell survives when its count of live Moore
 * neighbours is listed in the rule's pattern; a live cell that does not
 * survive starts to decay, and a decaying cell moves on to
 * `(state + 1) % stateCount` whatever its neighbours are.
 */
module GenerationCa {
  import opened Wrappers
  import opened Math
  import opened Grid
  import opened Kernel
  import opened Pattern
  import opened Sequences

  /** The rule fields the update and the rulestring share. The boundary rule
      the update samples with is passed to the update separately. */
  datatype GenerationCaRule = GenerationCaRule(
    birthPattern: seq<int>,
    stateCount: int,
    survivalPattern: seq<int>)

  /** The named rules of the source. */
  function BelZhab(): GenerationCaRule { GenerationCaRule([2, 3], 8, [2, 3]) }
  function Bombers(): GenerationCaRule { GenerationCaRule([2, 4], 25, [3, 4, 5]) }
  function Faders(): GenerationCaRule { GenerationCaRule([2], 25, [2]) }

  /** sampleAlive: 1 exactly when the sample is the live state 1. */
  function SampleAlive(sample: (int, int) -> Option<int>, x: int, y: int): nat
  {
    if sample(x, y) == Some(1) then 1 else 0
  }

  /** The number of live cells among the eight neighbours of `position`. */
  function AliveSum(sample: (int, int) -> Option<int>, position: Point): nat
  {
    CountMatches(sample, position, 1, Neighbors8())
  }

  /** At most eight neighbours are alive. */
  lemma AliveSumRange(sample: (int, int) -> Option<int>, position: Point)
    ensures 0 <= AliveSum(sample, position) <= 8
    ensures AliveSum(sample, position) == CountMatches(sample, position, 1, MooreOffsets(1))
  {
    CountAtMost(sample, position, 1, Neighbors8());
    Neighbors8IsMooreOne();
  }

  /** The new state of a cell in `state` with `sum` live neighbours. */
  function GenerationCellNext(rule: GenerationCaRule, state: int, sum: int): int
    requires rule.stateCount != 0
  {
    if state == 0 then (if Matches(sum, rule.birthPattern) then 1 else 0)
    else if state == 1 then (if Matches(sum, rule.survivalPattern) then 1 else 2)
    else JsRem(state + 1, rule.stateCount)
  }

  /**
   * The three cases of a cell's step. A dead cell is born exactly when its
   * sum is a nonzero count of the birth pattern, a live cell survives exactly
   * when its sum is a nonzero count of the survival pattern and decays to 2
   * otherwise, and any other state advances without looking at the sum.
   */
  lemma GenerationCellCases(rule: GenerationCaRule, state: int, sum: int, otherSum: int)
    requires rule.stateCount != 0
    ensures state == 0 ==> GenerationCellNext(rule, state, sum) in {0, 1}
    ensures state == 0 ==> (GenerationCellNext(rule, state, sum) == 1 <==> sum in rule.birthPattern && sum != 0)
    ensures state == 1 ==> GenerationCellNext(rule, state, sum) in {1, 2}
    ensures state == 1 ==> (GenerationCellNext(rule, state, sum) == 1 <==> sum in rule.survivalPattern && sum != 0)
    ensures state != 0 && state != 1 ==>
      GenerationCellNext(rule, state, sum) == GenerationCellNext(rule, state, otherSum)
    ensures state >= 2 && rule.stateCount > 0 ==>
      GenerationCellNext(rule, state, sum) == (state + 1) % rule.stateCount
  {
  }

  /** A count of 0 in a pattern is never matched: a dead cell without live
      neighbours stays dead, and a live one without live neighbours decays. */
  lemma LonelyCell(rule: GenerationCaRule)
    requires rule.stateCount != 0
    ensures GenerationCellNext(rule, 0, 0) == 0
    ensures GenerationCellNext(rule, 1, 0) == 2
  {
  }

  /** With at least three states, an in-range state steps to an in-range state. */
  lemma GenerationCellInRange(rule: GenerationCaRule, state: int, sum: int)
    requires rule.stateCount >= 3 && 0 <= state < rule.stateCount
    ensures 0 <= GenerationCellNext(rule, state, sum) < rule.stateCount
  {
    if state >= 2 {
      if state + 1 == rule.stateCount {
        DivModUnique(state + 1, 1, 0, rule.stateCount);
      } else {
        DivModUnique(state + 1, 0, state + 1, rule.stateCount);
      }
    }
  }

  /** With two states, a live cell that does not survive takes the state 2,
      which lies outside [0, stateCount). */
  lemma TwoStatesLeaveRange(rule: GenerationCaRule, sum: int)
    requires rule.stateCount == 2 && !Matches(sum, rule.survivalPattern)
    ensures GenerationCellNext(rule, 1, sum) == 2 == rule.stateCount
  {
  }

  /** The buffer after one generation step; every cell reads the old buffer only. */
  function GenerationNext(boundaryRule: BoundaryRule, cells: seq<int>, dimension: Dimension,
                          rule: GenerationCaRule): (next: seq<int>)
    requires WellFormed(cells, dimension) && rule.stateCount != 0
    ensures |next| == |cells|
  {
    seq(|cells|, k requires 0 <= k < |cells| =>
      PositiveFactors(dimension.width, dimension.height, k);
      GenerationCellNext(rule, cells[k], AliveSum(Sampler(boundaryRule, cells, dimension), CellPosition(dimension.width, k))))
  }

  /** The new buffer at the row-major index of `(x, y)` is that cell's next state. */
  lemma GenerationNextAt(boundaryRule: BoundaryRule, cells: seq<int>, dimension: Dimension,
                         rule: GenerationCaRule, x: int, y: int)
    requires WellFormed(cells, dimension) && rule.stateCount != 0
    requires 0 <= x < dimension.width && 0 <= y < dimension.height
    ensures 0 <= dimension.width * y + x < |cells|
    ensures GenerationNext(boundaryRule, cells, dimension, rule)[dimension.width * y + x]
         == GenerationCellNext(rule, cells[dimension.width * y + x], AliveSum(Sampler(boundaryRule, cells, dimension), Point(x, y)))
  {
    InsideIndex(dimension, x, y);
    RowMajor(dimension.width, x, y);
  }

  /** With at least three states, one step keeps the buffer length and every
      state in [0, stateCount). */
  lemma GenerationNextInRange(boundaryRule: BoundaryRule, cells: seq<int>, dimension: Dimension, rule: GenerationCaRule)
    requires WellFormed(cells, dimension) && rule.stateCount >= 3
    requires forall k :: 0 <= k < |cells| ==> 0 <= cells[k] < rule.stateCount
    ensures WellFormed(GenerationNext(boundaryRule, cells, dimension, rule), dimension)
    ensures var next := GenerationNext(boundaryRule, cells, dimension, rule);
      forall k :: 0 <= k < |next| ==> 0 <= next[k] < rule.stateCount
  {
    var next := GenerationNext(boundaryRule, cells, dimension, rule);
    forall k | 0 <= k < |next|
      ensures 0 <= next[k] < rule.stateCount
    {
      PositiveFactors(dimension.width, dimension.height, k);
      GenerationCellInRange(rule, cells[k], AliveSum(Sampler(boundaryRule, cells, dimension), CellPosition(dimension.width, k)));
    }
  }

  /** The eight `sum += sampleAlive(...)` lines: the live neighbours of `(x, y)`. */
  method SumAlive(sample: (int, int) -> Option<int>, x: int, y: int) returns (sum: int)
    ensures sum == AliveSum(sample, Point(x, y))
  {
    sum := 0;
    sum := sum + SampleAlive(sample, x - 1, y - 1);
    sum := sum + SampleAlive(sample, x, y - 1);
    sum := sum + SampleAlive(sample, x + 1, y - 1);
    sum := sum + SampleAlive(sample, x - 1, y);
    sum := sum + SampleAlive(sample, x + 1, y);
    sum := sum + SampleAlive(sample, x - 1, y + 1);
    sum := sum + SampleAlive(sample, x, y + 1);
    sum := sum + SampleAlive(sample, x + 1, y + 1);
    CountNeighbors8(sample, Point(x, y), 1);
  }

  /** The body of updateGenerationCa's loops for the cell `(x, y)`: the live
      neighbour sum, then the three-way case on the old state. */
  method NextGenerationCell(sample: (int, int) -> Option<int>, ghost boundaryRule: BoundaryRule, cells: seq<int>,
                            dimension: Dimension, rule: GenerationCaRule, x: int, y: int) returns (nextCell: int)
    requires sample == Sampler(boundaryRule, cells, dimension)
    requires WellFormed(cells, dimension) && rule.stateCount != 0
    requires 0 <= x < dimension.width && 0 <= y < dimension.height
    ensures 0 <= dimension.width * y + x < |cells|
    ensures nextCell == GenerationNext(boundaryRule, cells, dimension, rule)[dimension.width * y + x]
  {
    var cellIndex := dimension.width * y + x;
    GenerationNextAt(boundaryRule, cells, dimension, rule, x, y);
    var state := cells[cellIndex];
    var sum := SumAlive(sample, x, y);
    if state == 0 {
      nextCell := if Matches(sum, rule.birthPattern) then 1 else 0;
    } else if state == 1 {
      nextCell := if Matches(sum, rule.survivalPattern) then 1 else 2;
    } else {
      nextCell := JsRem(state + 1, rule.stateCount);
    }
  }

  /** One pass of updateGenerationCa's inner loop: the next states of row `y`,
      appended to the row-major prefix of the rows above it. */
  method AppendGenerationRow(sample: (int, int) -> Option<int>, ghost boundaryRule: BoundaryRule, cells: seq<int>,
                             dimension: Dimension, rule: GenerationCaRule, y: int, nextCells: seq<int>)
    returns (extended: seq<int>)
    requires sample == Sampler(boundaryRule, cells, dimension)
    requires WellFormed(cells, dimension) && rule.stateCount != 0
    requires 0 <= y < dimension.height && |nextCells| == dimension.width * y
    requires nextCells == GenerationNext(boundaryRule, cells, dimension, rule)[..|nextCells|]
    ensures |extended| == dimension.width * (y + 1) <= |cells|
    ensures extended == GenerationNext(boundaryRule, cells, dimension, rule)[..|extended|]
  {
    ghost var next := GenerationNext(boundaryRule, cells, dimension, rule);
    extended := nextCells;
    for x := 0 to dimension.width
      invariant |extended| == dimension.width * y + x <= |cells|
      invariant extended == next[..|extended|]
    {
      var nextCell := NextGenerationCell(sample, boundaryRule, cells, dimension, rule, x, y);
      PrefixExtend(next, extended, nextCell);
      // `nextCells[cellIndex] = ...` writes at the array's current length: an append.
      extended := extended + [nextCell];
    }
    assert dimension.width * (y + 1) == dimension.width * y + dimension.width;
  }

  /** updateGenerationCa: fills a fresh buffer in row-major order, then swaps it in. */
  method UpdateGenerationCa(grid: Grid, rule: GenerationCaRule, boundaryRule: BoundaryRule)
    requires grid.Valid() && rule.stateCount != 0
    modifies grid
    ensures grid.dimension == old(grid.dimension) && grid.stateCount == old(grid.stateCount)
    ensures grid.cells == GenerationNext(boundaryRule, old(grid.cells), grid.dimension, rule)
    ensures grid.Valid()
  {
    var cells, dimension := grid.cells, grid.dimension;
    var sample := Sampler(boundaryRule, cells, dimension);
    ghost var next := GenerationNext(boundaryRule, cells, dimension, rule);
    var nextCells: seq<int> := [];
    for y := 0 to dimension.height
      modifies {}
      invariant |nextCells| == dimension.width * y <= |cells|
      invariant nextCells == next[..|nextCells|]
    {
      nextCells := AppendGenerationRow(sample, boundaryRule, cells, dimension, rule, y, nextCells);
    }
    assert next[..|nextCells|] == next;
    grid.cells := nextCells;
  }
}
