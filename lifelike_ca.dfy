/**
 * LifelikeCa.ts: two-state automata in the family of the Game of Life. The
 * sum of the eight Moore neighbours' values decides the step: a live centre
 * survives when the sum is in the survival pattern, a dead centre is born
 * when it is in the birth pattern, and every other cell ends up dead.
 */
module LifelikeCa {
  import opened Wrappers
  import opened Grid
  import opened Kernel
  import opened Pattern
  import opened Sequences

  /** The rule fields the update and the rulestring share. The boundary rule
      the update samples with is passed to the update separately. */
  datatype LifelikeCaRule = LifelikeCaRule(birthPattern: seq<int>, survivalPattern: seq<int>)

  /** The named rule of the source. */
  function GameOfLife(): LifelikeCaRule { LifelikeCaRule([3], [2, 3]) }

  /** The update's `sample`: a null sample counts as 0. */
  function SampleValue(sample: (int, int) -> Option<int>, x: int, y: int): int
  {
    match sample(x, y)
    case None => 0
    case Some(value) => value
  }

  /** The value at the centre plus `o`. */
  function OffsetValue(sample: (int, int) -> Option<int>, center: Point, o: Offset): int
  {
    SampleValue(sample, center.x + o.dx, center.y + o.dy)
  }

  /** The sum of the sampled values over `kernel` around `center`. */
  function ValueSum(sample: (int, int) -> Option<int>, center: Point, kernel: seq<Offset>): int
  {
    if kernel == [] then 0
    else ValueSum(sample, center, kernel[..|kernel| - 1]) + OffsetValue(sample, center, kernel[|kernel| - 1])
  }

  /** One more offset adds its value. */
  lemma ValueSumSnoc(sample: (int, int) -> Option<int>, center: Point, kernel: seq<Offset>, o: Offset)
    ensures ValueSum(sample, center, kernel + [o]) == ValueSum(sample, center, kernel) + OffsetValue(sample, center, o)
  {
    assert (kernel + [o])[..|kernel|] == kernel;
  }

  /** The value sum over the eight neighbours, in the order the update adds them. */
  lemma ValueSumNeighbors8(sample: (int, int) -> Option<int>, x: int, y: int)
    ensures ValueSum(sample, Point(x, y), Neighbors8())
         == SampleValue(sample, x - 1, y - 1) + SampleValue(sample, x, y - 1) + SampleValue(sample, x + 1, y - 1)
          + SampleValue(sample, x - 1, y) + SampleValue(sample, x + 1, y)
          + SampleValue(sample, x - 1, y + 1) + SampleValue(sample, x, y + 1) + SampleValue(sample, x + 1, y + 1)
  {
    ValueSumEight(sample, Point(x, y), Offset(-1, -1), Offset(0, -1), Offset(1, -1), Offset(-1, 0),
                  Offset(1, 0), Offset(-1, 1), Offset(0, 1), Offset(1, 1));
  }

  /** The value sum over an eight-offset kernel, one value per offset in order. */
  lemma ValueSumEight(sample: (int, int) -> Option<int>, center: Point,
                      o1: Offset, o2: Offset, o3: Offset, o4: Offset, o5: Offset, o6: Offset, o7: Offset, o8: Offset)
    ensures ValueSum(sample, center, [o1, o2, o3, o4, o5, o6, o7, o8])
         == OffsetValue(sample, center, o1) + OffsetValue(sample, center, o2)
          + OffsetValue(sample, center, o3) + OffsetValue(sample, center, o4)
          + OffsetValue(sample, center, o5) + OffsetValue(sample, center, o6)
          + OffsetValue(sample, center, o7) + OffsetValue(sample, center, o8)
  {
    var k1 := [o1];
    var k2 := k1 + [o2];
    var k3 := k2 + [o3];
    var k4 := k3 + [o4];
    var k5 := k4 + [o5];
    var k6 := k5 + [o6];
    var k7 := k6 + [o7];
    ValueSumSnoc(sample, center, [], o1);
    assert [] + [o1] == k1;
    ValueSumSnoc(sample, center, k1, o2);
    ValueSumSnoc(sample, center, k2, o3);
    ValueSumSnoc(sample, center, k3, o4);
    ValueSumSnoc(sample, center, k4, o5);
    ValueSumSnoc(sample, center, k5, o6);
    ValueSumSnoc(sample, center, k6, o7);
    ValueSumSnoc(sample, center, k7, o8);
    assert k7 + [o8] == [o1, o2, o3, o4, o5, o6, o7, o8];
  }

  /** When every sample over the kernel is null, 0 or 1, the value sum is
      the number of samples equal to 1. */
  lemma {:induction false} ValueSumOfBinary(sample: (int, int) -> Option<int>, center: Point, kernel: seq<Offset>)
    requires forall o :: o in kernel ==> sample(center.x + o.dx, center.y + o.dy) in {None, Some(0), Some(1)}
    ensures ValueSum(sample, center, kernel) == CountMatches(sample, center, 1, kernel)
    decreases |kernel|
  {
    if kernel != [] {
      var front := kernel[..|kernel| - 1];
      assert forall o :: o in front ==> o in kernel;
      assert kernel[|kernel| - 1] in kernel;
      ValueSumOfBinary(sample, center, front);
    }
  }

  /** Every cell is dead (0) or alive (1). */
  predicate Binary(cells: seq<int>)
  {
    forall k :: 0 <= k < |cells| ==> cells[k] == 0 || cells[k] == 1
  }

  /** On a 0/1 buffer the sum of the neighbour values is the number of live
      neighbours, between 0 and 8. */
  lemma LiveNeighbourSum(boundaryRule: BoundaryRule, cells: seq<int>, dimension: Dimension, position: Point)
    requires Binary(cells)
    ensures var sample := Sampler(boundaryRule, cells, dimension);
      ValueSum(sample, position, Neighbors8()) == CountMatches(sample, position, 1, Neighbors8())
    ensures 0 <= ValueSum(Sampler(boundaryRule, cells, dimension), position, Neighbors8()) <= 8
  {
    var sample := Sampler(boundaryRule, cells, dimension);
    forall o | o in Neighbors8()
      ensures sample(position.x + o.dx, position.y + o.dy) in {None, Some(0), Some(1)}
    {
      SampleInCells(boundaryRule, cells, dimension, position.x + o.dx, position.y + o.dy);
    }
    ValueSumOfBinary(sample, position, Neighbors8());
    CountAtMost(sample, position, 1, Neighbors8());
  }

  /** The new state of a cell whose centre value is `center` and whose
      neighbour values add up to `sum`. */
  function LifelikeCellNext(rule: LifelikeCaRule, center: int, sum: int): int
  {
    var pattern := if center > 0 then rule.survivalPattern else rule.birthPattern;
    if Matches(sum, pattern) then 1 else 0
  }

  /**
   * A cell always becomes 0 or 1. A live centre (above 0) becomes 1 exactly
   * when the sum is a nonzero count of the survival pattern, any other centre
   * exactly when it is a nonzero count of the birth pattern; a listed count
   * of 0 never matches.
   */
  lemma LifelikeCellCases(rule: LifelikeCaRule, center: int, sum: int)
    ensures LifelikeCellNext(rule, center, sum) in {0, 1}
    ensures center > 0 ==> (LifelikeCellNext(rule, center, sum) == 1 <==> sum in rule.survivalPattern && sum != 0)
    ensures center <= 0 ==> (LifelikeCellNext(rule, center, sum) == 1 <==> sum in rule.birthPattern && sum != 0)
  {
  }

  /** The Game of Life: a cell is alive next exactly when it has three live
      neighbours, or is alive and has two. */
  lemma GameOfLifeStep(center: int, sum: int)
    requires center == 0 || center == 1
    ensures LifelikeCellNext(GameOfLife(), center, sum) == 1 <==> sum == 3 || (center == 1 && sum == 2)
  {
  }

  /** The buffer after one step; every cell reads the old buffer only. */
  function LifelikeNext(boundaryRule: BoundaryRule, cells: seq<int>, dimension: Dimension,
                        rule: LifelikeCaRule): (next: seq<int>)
    requires WellFormed(cells, dimension)
    ensures |next| == |cells|
  {
    seq(|cells|, k requires 0 <= k < |cells| =>
      PositiveFactors(dimension.width, dimension.height, k);
      LifelikeCellNext(rule, cells[k], ValueSum(Sampler(boundaryRule, cells, dimension), CellPosition(dimension.width, k), Neighbors8())))
  }

  /** The new buffer at the row-major index of `(x, y)` is that cell's next state. */
  lemma LifelikeNextAt(boundaryRule: BoundaryRule, cells: seq<int>, dimension: Dimension,
                       rule: LifelikeCaRule, x: int, y: int)
    requires WellFormed(cells, dimension)
    requires 0 <= x < dimension.width && 0 <= y < dimension.height
    ensures 0 <= dimension.width * y + x < |cells|
    ensures LifelikeNext(boundaryRule, cells, dimension, rule)[dimension.width * y + x]
         == LifelikeCellNext(rule, cells[dimension.width * y + x],
                             ValueSum(Sampler(boundaryRule, cells, dimension), Point(x, y), Neighbors8()))
  {
    InsideIndex(dimension, x, y);
    RowMajor(dimension.width, x, y);
  }

  /** One step keeps the buffer length and leaves only 0s and 1s, whatever the old values. */
  lemma LifelikeNextBinary(boundaryRule: BoundaryRule, cells: seq<int>, dimension: Dimension, rule: LifelikeCaRule)
    requires WellFormed(cells, dimension)
    ensures WellFormed(LifelikeNext(boundaryRule, cells, dimension, rule), dimension)
    ensures Binary(LifelikeNext(boundaryRule, cells, dimension, rule))
  {
    var next := LifelikeNext(boundaryRule, cells, dimension, rule);
    forall k | 0 <= k < |next|
      ensures next[k] == 0 || next[k] == 1
    {
      PositiveFactors(dimension.width, dimension.height, k);
      LifelikeCellCases(rule, cells[k], ValueSum(Sampler(boundaryRule, cells, dimension), CellPosition(dimension.width, k), Neighbors8()));
    }
  }

  /** The eight `sum += sample(...)` lines: the neighbour values of `(x, y)` added up. */
  method SumNeighbourValues(sample: (int, int) -> Option<int>, x: int, y: int) returns (sum: int)
    ensures sum == ValueSum(sample, Point(x, y), Neighbors8())
  {
    sum := 0;
    sum := sum + SampleValue(sample, x - 1, y - 1);
    sum := sum + SampleValue(sample, x, y - 1);
    sum := sum + SampleValue(sample, x + 1, y - 1);
    sum := sum + SampleValue(sample, x - 1, y);
    sum := sum + SampleValue(sample, x + 1, y);
    sum := sum + SampleValue(sample, x - 1, y + 1);
    sum := sum + SampleValue(sample, x, y + 1);
    sum := sum + SampleValue(sample, x + 1, y + 1);
    ValueSumNeighbors8(sample, x, y);
  }

  /** The body of updateLifelikeCa's loops for the cell `(x, y)`. */
  method NextLifelikeCell(sample: (int, int) -> Option<int>, ghost boundaryRule: BoundaryRule, cells: seq<int>,
                          dimension: Dimension, rule: LifelikeCaRule, x: int, y: int) returns (nextCell: int)
    requires sample == Sampler(boundaryRule, cells, dimension)
    requires WellFormed(cells, dimension)
    requires 0 <= x < dimension.width && 0 <= y < dimension.height
    ensures 0 <= dimension.width * y + x < |cells|
    ensures nextCell == LifelikeNext(boundaryRule, cells, dimension, rule)[dimension.width * y + x]
  {
    var cellIndex := dimension.width * y + x;
    LifelikeNextAt(boundaryRule, cells, dimension, rule, x, y);
    var center := cells[cellIndex];
    var sum := SumNeighbourValues(sample, x, y);
    var pattern := if center > 0 then rule.survivalPattern else rule.birthPattern;
    nextCell := if Matches(sum, pattern) then 1 else 0;
  }

  /** One pass of updateLifelikeCa's inner loop: the next states of row `y`,
      appended to the row-major prefix of the rows above it. */
  method AppendLifelikeRow(sample: (int, int) -> Option<int>, ghost boundaryRule: BoundaryRule, cells: seq<int>,
                           dimension: Dimension, rule: LifelikeCaRule, y: int, nextCells: seq<int>)
    returns (extended: seq<int>)
    requires sample == Sampler(boundaryRule, cells, dimension)
    requires WellFormed(cells, dimension)
    requires 0 <= y < dimension.height && |nextCells| == dimension.width * y
    requires nextCells == LifelikeNext(boundaryRule, cells, dimension, rule)[..|nextCells|]
    ensures |extended| == dimension.width * (y + 1) <= |cells|
    ensures extended == LifelikeNext(boundaryRule, cells, dimension, rule)[..|extended|]
  {
    ghost var next := LifelikeNext(boundaryRule, cells, dimension, rule);
    extended := nextCells;
    for x := 0 to dimension.width
      invariant |extended| == dimension.width * y + x <= |cells|
      invariant extended == next[..|extended|]
    {
      var nextCell := NextLifelikeCell(sample, boundaryRule, cells, dimension, rule, x, y);
      PrefixExtend(next, extended, nextCell);
      // `nextCells[cellIndex] = ...` writes at the array's current length: an append.
      extended := extended + [nextCell];
    }
    assert dimension.width * (y + 1) == dimension.width * y + dimension.width;
  }

  /** updateLifelikeCa: fills a fresh buffer in row-major order, then swaps it in. */
  method UpdateLifelikeCa(grid: Grid, rule: LifelikeCaRule, boundaryRule: BoundaryRule)
    requires grid.Valid()
    modifies grid
    ensures grid.dimension == old(grid.dimension) && grid.stateCount == old(grid.stateCount)
    ensures grid.cells == LifelikeNext(boundaryRule, old(grid.cells), grid.dimension, rule)
    ensures grid.Valid()
  {
    var cells, dimension := grid.cells, grid.dimension;
    var sample := Sampler(boundaryRule, cells, dimension);
    ghost var next := LifelikeNext(boundaryRule, cells, dimension, rule);
    var nextCells: seq<int> := [];
    for y := 0 to dimension.height
      modifies {}
      invariant |nextCells| == dimension.width * y <= |cells|
      invariant nextCells == next[..|nextCells|]
    {
      nextCells := AppendLifelikeRow(sample, boundaryRule, cells, dimension, rule, y, nextCells);
    }
    assert next[..|nextCells|] == next;
    grid.cells := nextCells;
  }
}
