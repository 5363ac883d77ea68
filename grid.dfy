/**
 * Grid.ts: a row-major buffer of cell states, its random fills and the two
 * boundary samplers.
 */
module Grid {
  import opened Wrappers
  import opened Math

  datatype BoundaryRule = Closed | Toroidal

  datatype FillType = UniformRandom | UniformRandomBinary

  datatype Dimension = Dimension(width: nat, height: nat)

  datatype Point = Point(x: int, y: int)

  /** What `createGrid` is asked for; an absent `fillType` is the optional field left out. */
  datatype GridSpec = GridSpec(dimension: Dimension, fillType: Option<FillType>, stateCount: int)

  datatype SimulationOptions = SimulationOptions(boundaryRule: BoundaryRule)

  /** The buffer holds exactly one state per cell. Every grid built by
      `createGrid` has this shape and every update keeps it. */
  predicate WellFormed(cells: seq<int>, dimension: Dimension)
  {
    |cells| == dimension.width * dimension.height
  }

  class Grid {
    var cells: seq<int>
    var dimension: Dimension
    var stateCount: int

    constructor (cells: seq<int>, dimension: Dimension, stateCount: int)
      ensures this.cells == cells && this.dimension == dimension && this.stateCount == stateCount
    {
      this.cells := cells;
      this.dimension := dimension;
      this.stateCount := stateCount;
    }

    predicate Valid()
      reads this
    {
      WellFormed(cells, dimension)
    }
  }

  /** The cell that the row-major index `k` stands for. */
  function CellPosition(width: nat, k: int): Point
    requires width > 0
  {
    Point(k % width, k / width)
  }

  /** `width * y + x` is the row-major index of `(x, y)` and can be read back. */
  lemma RowMajor(width: nat, x: int, y: int)
    requires 0 <= x < width
    ensures CellPosition(width, width * y + x) == Point(x, y)
  {
    DivModUnique(width * y + x, y, x, width);
  }

  lemma PositiveFactors(width: nat, height: nat, k: int)
    requires 0 <= k < width * height
    ensures width > 0 && height > 0
  {
    assert width == 0 || height == 0 ==> width * height == 0;
  }

  /** Every index of a well-formed buffer stands for a cell inside the grid. */
  lemma CellPositionInside(width: nat, height: nat, k: int)
    requires 0 <= k < width * height
    ensures width > 0 && height > 0
    ensures var p := CellPosition(width, k); 0 <= p.x < width && 0 <= p.y < height && width * p.y + p.x == k
  {
    PositiveFactors(width, height, k);
    var p := CellPosition(width, k);
    assert k == width * p.y + p.x;
    MulStrict(p.y, 0, width);
    MulStrict(height - 1, p.y, width);
    assert (height - 1) * width + width == height * width;
  }

  /** The buffer after `fill`: every cell of the grid holds the fill value
      of its position, and any longer tail of the old buffer is kept. */
  function Filled(cells: seq<int>, dimension: Dimension, fillFunction: Point -> int): seq<int>
  {
    var size := dimension.width * dimension.height;
    seq(Max(|cells|, size), k requires 0 <= k < Max(|cells|, size) =>
      if k < size then
        PositiveFactors(dimension.width, dimension.height, k);
        fillFunction(CellPosition(dimension.width, k))
      else cells[k])
  }

  /** fill: row-major nested loops; each write at the buffer's current length appends. */
  method Fill(grid: Grid, fillFunction: Point -> int)
    modifies grid
    ensures grid.dimension == old(grid.dimension) && grid.stateCount == old(grid.stateCount)
    ensures grid.cells == Filled(old(grid.cells), grid.dimension, fillFunction)
  {
    var height, width := grid.dimension.height, grid.dimension.width;
    ghost var initial := grid.cells;
    for y := 0 to height
      invariant grid.dimension == old(grid.dimension) && grid.stateCount == old(grid.stateCount)
      invariant |grid.cells| == Max(|initial|, width * y)
      invariant forall k :: 0 <= k < width * y ==> grid.cells[k] == fillFunction(CellPosition(width, k))
      invariant forall k :: width * y <= k < |initial| ==> grid.cells[k] == initial[k]
    {
      for x := 0 to width
        invariant grid.dimension == old(grid.dimension) && grid.stateCount == old(grid.stateCount)
        invariant |grid.cells| == Max(|initial|, width * y + x)
        invariant forall k :: 0 <= k < width * y + x ==> grid.cells[k] == fillFunction(CellPosition(width, k))
        invariant forall k :: width * y + x <= k < |initial| ==> grid.cells[k] == initial[k]
      {
        var cellIndex := width * y + x;
        RowMajor(width, x, y);
        var value := fillFunction(Point(x, y));
        if cellIndex < |grid.cells| {
          grid.cells := grid.cells[cellIndex := value];
        } else {
          grid.cells := grid.cells + [value];
        }
      }
      assert width * (y + 1) == width * y + width;
    }
    assert forall k :: 0 <= k < |grid.cells| ==> grid.cells[k] == Filled(initial, grid.dimension, fillFunction)[k];
  }

  /** Filling puts the fill value of `(x, y)` at index `width * y + x`. */
  lemma FilledAt(cells: seq<int>, dimension: Dimension, fillFunction: Point -> int, x: int, y: int)
    requires 0 <= x < dimension.width && 0 <= y < dimension.height
    ensures 0 <= dimension.width * y + x < |Filled(cells, dimension, fillFunction)|
    ensures Filled(cells, dimension, fillFunction)[dimension.width * y + x] == fillFunction(Point(x, y))
  {
    var w, h := dimension.width, dimension.height;
    RowMajor(w, x, y);
    MulAtLeast(h - y, w);
    assert w * h == w * y + w * (h - y);
  }

  /** Filling depends only on the values of the fill function. */
  lemma FilledAlike(cells: seq<int>, dimension: Dimension, f: Point -> int, g: Point -> int)
    requires forall p :: f(p) == g(p)
    ensures Filled(cells, dimension, f) == Filled(cells, dimension, g)
  {
    var a, b := Filled(cells, dimension, f), Filled(cells, dimension, g);
    forall k | 0 <= k < |a|
      ensures a[k] == b[k]
    {
      if k < dimension.width * dimension.height {
        PositiveFactors(dimension.width, dimension.height, k);
        var p := CellPosition(dimension.width, k);
        assert a[k] == f(p) && b[k] == g(p);
      }
    }
  }

  /** `getRandomInt(min, max)` is `floor(random * (max - min + 1) + min)` with
      `random` in [0, 1): a value in [min, max], or in (max, min] when max < min. */
  predicate InRandomIntRange(min: int, max: int, value: int)
  {
    if min <= max then min <= value <= max else max < value <= min
  }

  /** A source of random integers, one draw per position, that keeps to the range of `getRandomInt`. */
  ghost predicate IsRandomIntOracle(randomInt: (int, int, Point) -> int)
  {
    forall min, max, p :: InRandomIntRange(min, max, randomInt(min, max, p))
  }

  /** The largest value a fill type asks `getRandomInt` for. */
  function FillMax(fillType: FillType, stateCount: int): int
  {
    match fillType
    case UniformRandom => stateCount - 1
    case UniformRandomBinary => 1
  }

  /** The buffer after `fillByType`. */
  function RandomFilled(cells: seq<int>, dimension: Dimension, fillType: FillType, stateCount: int,
                        randomInt: (int, int, Point) -> int): seq<int>
  {
    Filled(cells, dimension, p => randomInt(0, FillMax(fillType, stateCount), p))
  }

  /** fillByType */
  method FillByType(grid: Grid, fillType: FillType, randomInt: (int, int, Point) -> int)
    modifies grid
    ensures grid.dimension == old(grid.dimension) && grid.stateCount == old(grid.stateCount)
    ensures grid.cells == RandomFilled(old(grid.cells), grid.dimension, fillType, grid.stateCount, randomInt)
  {
    var stateCount := grid.stateCount;
    ghost var initial := grid.cells;
    if fillType == UniformRandom {
      Fill(grid, p => randomInt(0, stateCount - 1, p));
      assert FillMax(fillType, stateCount) == stateCount - 1;
      FilledAlike(initial, grid.dimension, p => randomInt(0, stateCount - 1, p),
                  p => randomInt(0, FillMax(fillType, stateCount), p));
    } else {
      Fill(grid, p => randomInt(0, 1, p));
      assert FillMax(fillType, stateCount) == 1;
      FilledAlike(initial, grid.dimension, p => randomInt(0, 1, p),
                  p => randomInt(0, FillMax(fillType, stateCount), p));
    }
  }

  /** `gridSpec.fillType || UniformRandom`: UniformRandom is both the default
      and the enum's falsy first member. */
  function EffectiveFillType(fillType: Option<FillType>): FillType
  {
    match fillType
    case None => UniformRandom
    case Some(t) => t
  }

  /** The cells of the grid `createGrid` builds. */
  function InitialCells(gridSpec: GridSpec, randomInt: (int, int, Point) -> int): seq<int>
  {
    RandomFilled([], gridSpec.dimension, EffectiveFillType(gridSpec.fillType), gridSpec.stateCount, randomInt)
  }

  /** createGrid */
  method CreateGrid(gridSpec: GridSpec, randomInt: (int, int, Point) -> int) returns (grid: Grid)
    ensures fresh(grid)
    ensures grid.dimension == gridSpec.dimension && grid.stateCount == gridSpec.stateCount
    ensures grid.cells == InitialCells(gridSpec, randomInt)
    ensures grid.Valid()
  {
    var fillType := EffectiveFillType(gridSpec.fillType);
    grid := new Grid([], gridSpec.dimension, gridSpec.stateCount);
    FillByType(grid, fillType, randomInt);
  }

  /**
   * A new grid has one cell per position, the cell of `(x, y)` sits at
   * `width * y + x`, and every cell is a draw in the fill type's range:
   * [0, stateCount - 1] for UniformRandom (with at least one state) and
   * [0, 1] for UniformRandomBinary.
   */
  lemma InitialCellsInRange(gridSpec: GridSpec, randomInt: (int, int, Point) -> int)
    requires IsRandomIntOracle(randomInt)
    ensures WellFormed(InitialCells(gridSpec, randomInt), gridSpec.dimension)
    ensures var cells := InitialCells(gridSpec, randomInt);
      EffectiveFillType(gridSpec.fillType) == UniformRandom && gridSpec.stateCount >= 1 ==>
        forall k :: 0 <= k < |cells| ==> 0 <= cells[k] < gridSpec.stateCount
    ensures var cells := InitialCells(gridSpec, randomInt);
      EffectiveFillType(gridSpec.fillType) == UniformRandomBinary ==>
        forall k :: 0 <= k < |cells| ==> 0 <= cells[k] <= 1
  {
    var cells := InitialCells(gridSpec, randomInt);
    var fillType := EffectiveFillType(gridSpec.fillType);
    forall k | 0 <= k < |cells|
      ensures InRandomIntRange(0, FillMax(fillType, gridSpec.stateCount), cells[k])
    {
      PositiveFactors(gridSpec.dimension.width, gridSpec.dimension.height, k);
      var p := CellPosition(gridSpec.dimension.width, k);
      assert cells[k] == randomInt(0, FillMax(fillType, gridSpec.stateCount), p);
    }
  }

  /** With no fill type given, `createGrid` fills exactly as it does for UniformRandom. */
  lemma DefaultFillIsUniformRandom(gridSpec: GridSpec, randomInt: (int, int, Point) -> int)
    requires gridSpec.fillType.None?
    ensures InitialCells(gridSpec, randomInt) == InitialCells(gridSpec.(fillType := Some(UniformRandom)), randomInt)
  {
  }

  /** Reading `cells[k]`: a JavaScript array read outside the buffer yields
      `undefined`, which, like null, equals no state. */
  function Read(cells: seq<int>, k: int): (r: Option<int>)
    ensures r.Some? <==> 0 <= k < |cells|
    ensures r.Some? ==> r.value == cells[k]
  {
    if 0 <= k < |cells| then Some(cells[k]) else None
  }

  /** sampleClosedBoundary: only the row-major index is bounds-checked. */
  function SampleClosed(cells: seq<int>, dimension: Dimension, x: int, y: int): Option<int>
  {
    var cellIndex := dimension.width * y + x;
    if 0 <= cellIndex < dimension.width * dimension.height then Read(cells, cellIndex) else None
  }

  /** The row-major index `width * mod(y, height) + mod(x, width)` that toroidal sampling reads. */
  function ToroidalIndex(dimension: Dimension, x: int, y: int): (k: int)
    requires dimension.width > 0 && dimension.height > 0
    ensures 0 <= k < dimension.width * dimension.height
  {
    var wx := Mod(x, dimension.width);
    var wy := Mod(y, dimension.height);
    InsideIndex(dimension, wx, wy);
    dimension.width * wy + wx
  }

  /** sampleToroidalBoundary: both coordinates are wrapped with `mod`. On an
      empty grid `mod` by zero is NaN and the read yields nothing. */
  function SampleToroidal(cells: seq<int>, dimension: Dimension, x: int, y: int): Option<int>
  {
    if dimension.width > 0 && dimension.height > 0 then Read(cells, ToroidalIndex(dimension, x, y)) else None
  }

  /** getGridSampleFunction, applied: Closed samples closed, Toroidal samples toroidal. */
  function Sample(boundaryRule: BoundaryRule, cells: seq<int>, dimension: Dimension, x: int, y: int): Option<int>
  {
    match boundaryRule
    case Closed => SampleClosed(cells, dimension, x, y)
    case Toroidal => SampleToroidal(cells, dimension, x, y)
  }

  /** The sample function that getGridSampleFunction returns, bound to one buffer. */
  function Sampler(boundaryRule: BoundaryRule, cells: seq<int>, dimension: Dimension): (sample: (int, int) -> Option<int>)
    ensures boundaryRule == Closed ==> forall x, y :: sample(x, y) == SampleClosed(cells, dimension, x, y)
    ensures boundaryRule == Toroidal ==> forall x, y :: sample(x, y) == SampleToroidal(cells, dimension, x, y)
  {
    (x, y) => Sample(boundaryRule, cells, dimension, x, y)
  }

  /** On a well-formed buffer closed sampling is null exactly off the
      row-major range, and otherwise reads the cell at `width * y + x`. */
  lemma SampleClosedSpec(cells: seq<int>, dimension: Dimension, x: int, y: int)
    requires WellFormed(cells, dimension)
    ensures SampleClosed(cells, dimension, x, y).None? <==> !(0 <= dimension.width * y + x < dimension.width * dimension.height)
    ensures SampleClosed(cells, dimension, x, y).Some? ==>
      SampleClosed(cells, dimension, x, y).value == cells[dimension.width * y + x]
  {
  }

  /** On a well-formed non-empty buffer toroidal sampling never returns null. */
  lemma SampleToroidalSpec(cells: seq<int>, dimension: Dimension, x: int, y: int)
    requires WellFormed(cells, dimension) && dimension.width > 0 && dimension.height > 0
    ensures SampleToroidal(cells, dimension, x, y) == Some(cells[ToroidalIndex(dimension, x, y)])
  {
  }

  /** Both samplers read a cell inside the grid as itself. */
  lemma SampleInside(boundaryRule: BoundaryRule, cells: seq<int>, dimension: Dimension, x: int, y: int)
    requires WellFormed(cells, dimension) && 0 <= x < dimension.width && 0 <= y < dimension.height
    ensures 0 <= dimension.width * y + x < |cells|
    ensures Sample(boundaryRule, cells, dimension, x, y) == Some(cells[dimension.width * y + x])
  {
    InsideIndex(dimension, x, y);
    ModExamples(x, dimension.width);
    ModExamples(y, dimension.height);
  }

  lemma InsideIndex(dimension: Dimension, x: int, y: int)
    requires 0 <= x < dimension.width && 0 <= y < dimension.height
    ensures 0 <= dimension.width * y + x < dimension.width * dimension.height
  {
    MulAtLeast(dimension.height - y, dimension.width);
    assert dimension.width * dimension.height == dimension.width * y + dimension.width * (dimension.height - y);
  }

  /** Closed sampling bleeds across rows: one step left of the first column
      of row `y` is the last cell of row `y - 1`, not null. */
  lemma ClosedBleedsIntoPreviousRow(cells: seq<int>, dimension: Dimension, y: int)
    requires WellFormed(cells, dimension) && dimension.width > 0 && 1 <= y < dimension.height
    ensures SampleClosed(cells, dimension, -1, y) == Some(cells[dimension.width * (y - 1) + dimension.width - 1])
  {
    InsideIndex(dimension, dimension.width - 1, y - 1);
  }

  /** Closed sampling returns null above the first row and below the last one. */
  lemma ClosedNullOutsideRows(cells: seq<int>, dimension: Dimension, x: int, y: int)
    requires WellFormed(cells, dimension) && 0 <= x < dimension.width && (y < 0 || y >= dimension.height)
    ensures SampleClosed(cells, dimension, x, y).None?
  {
    var w := dimension.width;
    if y < 0 {
      MulAtLeast(-y, w);
      assert w * y == -(w * -y);
    } else {
      MulAtLeast(y - dimension.height + 1, w);
      assert w * y == w * dimension.height + w * (y - dimension.height);
    }
  }

  /** Toroidal sampling is unchanged by shifting `x` by any multiple of the
      width and `y` by any multiple of the height, negative multiples included. */
  lemma ToroidalShift(cells: seq<int>, dimension: Dimension, x: int, y: int, i: int, j: int)
    requires WellFormed(cells, dimension) && dimension.width > 0 && dimension.height > 0
    ensures SampleToroidal(cells, dimension, x + i * dimension.width, y + j * dimension.height)
         == SampleToroidal(cells, dimension, x, y)
  {
    ModShift(x, i, dimension.width);
    ModShift(y, j, dimension.height);
  }

  /** Whatever a sampler returns is a value held by the buffer. */
  lemma SampleInCells(boundaryRule: BoundaryRule, cells: seq<int>, dimension: Dimension, x: int, y: int)
    ensures Sample(boundaryRule, cells, dimension, x, y).Some? ==> Sample(boundaryRule, cells, dimension, x, y).value in cells
  {
  }
}
