/**
 * Neighbourhood kernels: the offsets the neighbour sums visit, in the order
 * the loops of CyclicCa.ts, GenerationCa.ts and LifelikeCa.ts visit them,
 * and the count of offsets whose sample holds a given state.
 */
module Kernel {
  import opened Wrappers
  import opened Math
  import opened Grid
  import opened Sequences

  /** A kernel offset `(kernelX, kernelY)` from the centre cell. */
  datatype Offset = Offset(dx: int, dy: int)

  /** The offsets `(kernelX, ky)` for kernelX from `lo` up to `hi`. */
  function Row(ky: int, lo: int, hi: int): seq<Offset>
    decreases hi - lo
  {
    if hi < lo then [] else Row(ky, lo, hi - 1) + [Offset(hi, ky)]
  }

  lemma {:induction false} RowMembers(ky: int, lo: int, hi: int)
    decreases hi - lo
    ensures forall o :: o in Row(ky, lo, hi) <==> o.dy == ky && lo <= o.dx <= hi
  {
    if hi >= lo {
      RowMembers(ky, lo, hi - 1);
    }
  }

  lemma {:induction false} RowDistinct(ky: int, lo: int, hi: int)
    decreases hi - lo
    ensures Distinct(Row(ky, lo, hi))
  {
    if hi >= lo {
      RowDistinct(ky, lo, hi - 1);
      RowMembers(ky, lo, hi - 1);
      DistinctAppend(Row(ky, lo, hi - 1), [Offset(hi, ky)]);
    }
  }

  lemma {:induction false} RowLength(ky: int, lo: int, hi: int)
    decreases hi - lo
    ensures |Row(ky, lo, hi)| == if hi < lo then 0 else hi - lo + 1
  {
    if hi >= lo {
      RowLength(ky, lo, hi - 1);
    }
  }

  /** Row `ky` of the Moore loop, kernelX from `-r` up to `hi`, the centre skipped. */
  function MooreRow(r: int, ky: int, hi: int): seq<Offset>
    decreases hi + r
  {
    if hi < -r then []
    else MooreRow(r, ky, hi - 1) + (if hi == 0 && ky == 0 then [] else [Offset(hi, ky)])
  }

  lemma {:induction false} MooreRowMembers(r: int, ky: int, hi: int)
    decreases hi + r
    ensures forall o :: o in MooreRow(r, ky, hi) <==> o.dy == ky && -r <= o.dx <= hi && o != Offset(0, 0)
  {
    if hi >= -r {
      MooreRowMembers(r, ky, hi - 1);
    }
  }

  lemma {:induction false} MooreRowDistinct(r: int, ky: int, hi: int)
    decreases hi + r
    ensures Distinct(MooreRow(r, ky, hi))
  {
    if hi >= -r {
      MooreRowDistinct(r, ky, hi - 1);
      MooreRowMembers(r, ky, hi - 1);
      DistinctAppend(MooreRow(r, ky, hi - 1), if hi == 0 && ky == 0 then [] else [Offset(hi, ky)]);
    }
  }

  lemma {:induction false} MooreRowLength(r: int, ky: int, hi: int)
    decreases hi + r
    ensures |MooreRow(r, ky, hi)| == if hi < -r then 0 else hi + r + 1 - (if ky == 0 && -r <= 0 <= hi then 1 else 0)
  {
    if hi >= -r {
      MooreRowLength(r, ky, hi - 1);
    }
  }

  /** The Moore loop up to row `hi`: rows `-r` to `hi`, each one full width. */
  function MooreRows(r: int, hi: int): seq<Offset>
    decreases hi + r
  {
    if hi < -r then [] else MooreRows(r, hi - 1) + MooreRow(r, hi, r)
  }

  lemma {:induction false} MooreRowsMembers(r: int, hi: int)
    decreases hi + r
    ensures forall o :: o in MooreRows(r, hi) <==> -r <= o.dy <= hi && -r <= o.dx <= r && o != Offset(0, 0)
  {
    if hi >= -r {
      MooreRowsMembers(r, hi - 1);
      MooreRowMembers(r, hi, r);
    }
  }

  lemma {:induction false} MooreRowsDistinct(r: int, hi: int)
    decreases hi + r
    ensures Distinct(MooreRows(r, hi))
  {
    if hi >= -r {
      MooreRowsDistinct(r, hi - 1);
      MooreRowDistinct(r, hi, r);
      MooreRowsMembers(r, hi - 1);
      MooreRowMembers(r, hi, r);
      DistinctAppend(MooreRows(r, hi - 1), MooreRow(r, hi, r));
    }
  }

  lemma {:induction false} MooreRowsLength(r: int, hi: int)
    decreases hi + r
    ensures r >= 0 && hi >= -r ==>
      |MooreRows(r, hi)| == (hi + r + 1) * (2 * r + 1) - (if hi >= 0 then 1 else 0)
  {
    if hi >= -r {
      MooreRowsLength(r, hi - 1);
      MooreRowLength(r, hi, r);
      assert (hi + r + 1) * (2 * r + 1) == (hi + r) * (2 * r + 1) + (2 * r + 1);
    }
  }

  /** The Moore kernel of range `r`, in the order of sumNeighborsMoore. */
  function MooreOffsets(r: int): seq<Offset>
  {
    MooreRows(r, r)
  }

  /** The Moore kernel holds exactly the offsets in [-r, r] x [-r, r] other than (0, 0). */
  lemma MooreOffsetsMembers(r: int)
    ensures forall o :: o in MooreOffsets(r) <==> -r <= o.dx <= r && -r <= o.dy <= r && o != Offset(0, 0)
  {
    MooreRowsMembers(r, r);
  }

  /** The Moore kernel visits no offset twice. */
  lemma MooreOffsetsDistinct(r: int)
    ensures Distinct(MooreOffsets(r))
  {
    MooreRowsDistinct(r, r);
  }

  /** The Moore kernel has (2r+1)^2 - 1 offsets, and none for a negative range. */
  lemma MooreOffsetsLength(r: int)
    ensures r >= 0 ==> |MooreOffsets(r)| == (2 * r + 1) * (2 * r + 1) - 1
    ensures r < 0 ==> MooreOffsets(r) == []
  {
    MooreRowsLength(r, r);
  }

  /** The top rows of the diamond, rangeX from 0 up to `n - 1`, row `-r + rangeX`
      holding kernelX from `-rangeX` to `rangeX`. */
  function TopRows(r: int, n: int): seq<Offset>
    decreases n
  {
    if n <= 0 then [] else TopRows(r, n - 1) + Row(-r + n - 1, -(n - 1), n - 1)
  }

  lemma {:induction false} TopRowsMembers(r: int, n: int)
    decreases n
    ensures forall o :: o in TopRows(r, n) <==> -r <= o.dy < -r + n && -(o.dy + r) <= o.dx <= o.dy + r
  {
    if n > 0 {
      var k := n - 1;
      var front, row := TopRows(r, k), Row(-r + k, -k, k);
      assert TopRows(r, n) == front + row;
      TopRowsMembers(r, k);
      RowMembers(-r + k, -k, k);
      forall o: Offset
        ensures o in front + row <==> -r <= o.dy < -r + n && -(o.dy + r) <= o.dx <= o.dy + r
      {
        assert o in front + row <==> o in front || o in row;
      }
    }
  }

  lemma {:induction false} TopRowsDistinct(r: int, n: int)
    decreases n
    ensures Distinct(TopRows(r, n))
  {
    if n > 0 {
      TopRowsDistinct(r, n - 1);
      RowDistinct(-r + n - 1, -(n - 1), n - 1);
      TopRowsMembers(r, n - 1);
      RowMembers(-r + n - 1, -(n - 1), n - 1);
      DistinctAppend(TopRows(r, n - 1), Row(-r + n - 1, -(n - 1), n - 1));
    }
  }

  lemma {:induction false} TopRowsLength(r: int, n: int)
    decreases n
    ensures n >= 0 ==> |TopRows(r, n)| == n * n
  {
    if n > 0 {
      TopRowsLength(r, n - 1);
      RowLength(-r + n - 1, -(n - 1), n - 1);
      assert n * n == (n - 1) * (n - 1) + 2 * (n - 1) + 1;
    }
  }

  /** The middle row of the diamond without the centre: left half, then right half. */
  function MiddleRow(r: int): seq<Offset>
  {
    Row(0, -r, -1) + Row(0, 1, r)
  }

  lemma MiddleRowMembers(r: int)
    ensures forall o :: o in MiddleRow(r) <==> o.dy == 0 && (-r <= o.dx <= -1 || 1 <= o.dx <= r)
  {
    RowMembers(0, -r, -1);
    RowMembers(0, 1, r);
  }

  lemma MiddleRowDistinct(r: int)
    ensures Distinct(MiddleRow(r))
  {
    RowDistinct(0, -r, -1);
    RowDistinct(0, 1, r);
    RowMembers(0, -r, -1);
    RowMembers(0, 1, r);
    DistinctAppend(Row(0, -r, -1), Row(0, 1, r));
  }

  /** The bottom rows of the diamond, rangeX from `r - 1` down to `j`, row
      `r - rangeX` holding kernelX from `-rangeX` to `rangeX`. */
  function BottomRows(r: int, j: int): seq<Offset>
    decreases r - j
  {
    if j >= r then [] else BottomRows(r, j + 1) + Row(r - j, -j, j)
  }

  lemma {:induction false} BottomRowsMembers(r: int, j: int)
    decreases r - j
    ensures forall o :: o in BottomRows(r, j) <==> 0 < o.dy <= r - j && -(r - o.dy) <= o.dx <= r - o.dy
  {
    if j < r {
      var front, row := BottomRows(r, j + 1), Row(r - j, -j, j);
      assert BottomRows(r, j) == front + row;
      BottomRowsMembers(r, j + 1);
      RowMembers(r - j, -j, j);
      forall o: Offset
        ensures o in front + row <==> 0 < o.dy <= r - j && -(r - o.dy) <= o.dx <= r - o.dy
      {
        assert o in front + row <==> o in front || o in row;
      }
    }
  }

  lemma {:induction false} BottomRowsDistinct(r: int, j: int)
    decreases r - j
    ensures Distinct(BottomRows(r, j))
  {
    if j < r {
      BottomRowsDistinct(r, j + 1);
      RowDistinct(r - j, -j, j);
      BottomRowsMembers(r, j + 1);
      RowMembers(r - j, -j, j);
      DistinctAppend(BottomRows(r, j + 1), Row(r - j, -j, j));
    }
  }

  lemma {:induction false} BottomRowsLength(r: int, j: int)
    decreases r - j
    ensures 0 <= j <= r ==> |BottomRows(r, j)| == r * r - j * j
  {
    if j < r {
      BottomRowsLength(r, j + 1);
      RowLength(r - j, -j, j);
      assert (j + 1) * (j + 1) == j * j + 2 * j + 1;
    }
  }

  /** The von Neumann kernel of range `r`, in the order of sumNeighborsVonNeumann:
      top rows, middle row, bottom rows. */
  function VonNeumannOffsets(r: int): seq<Offset>
  {
    TopRows(r, r) + MiddleRow(r) + BottomRows(r, 0)
  }

  /** The von Neumann kernel holds exactly the offsets with 0 < |kernelX| + |kernelY| <= r. */
  lemma VonNeumannOffsetsMembers(r: int)
    ensures forall o :: o in VonNeumannOffsets(r) <==> 0 < Abs(o.dx) + Abs(o.dy) <= r
  {
    var top, middle, bottom := TopRows(r, r), MiddleRow(r), BottomRows(r, 0);
    TopRowsMembers(r, r);
    MiddleRowMembers(r);
    BottomRowsMembers(r, 0);
    forall o: Offset
      ensures o in top + middle + bottom <==> 0 < Abs(o.dx) + Abs(o.dy) <= r
    {
      assert o in top + middle + bottom <==> o in top || o in middle || o in bottom;
    }
  }

  /** The von Neumann kernel visits no offset twice. */
  lemma VonNeumannOffsetsDistinct(r: int)
    ensures Distinct(VonNeumannOffsets(r))
  {
    var top, middle, bottom := TopRows(r, r), MiddleRow(r), BottomRows(r, 0);
    TopRowsDistinct(r, r);
    MiddleRowDistinct(r);
    BottomRowsDistinct(r, 0);
    TopRowsMembers(r, r);
    MiddleRowMembers(r);
    BottomRowsMembers(r, 0);
    DistinctAppend(top, middle);
    DistinctAppend(top + middle, bottom);
  }

  /** The von Neumann kernel has 2r(r+1) offsets, and none for a range of 0 or less. */
  lemma VonNeumannOffsetsLength(r: int)
    ensures r >= 0 ==> |VonNeumannOffsets(r)| == 2 * r * (r + 1)
    ensures r <= 0 ==> VonNeumannOffsets(r) == []
  {
    var top, middle, bottom := TopRows(r, r), MiddleRow(r), BottomRows(r, 0);
    assert |VonNeumannOffsets(r)| == |top| + |middle| + |bottom|;
    RowLength(0, -r, -1);
    RowLength(0, 1, r);
    if r >= 0 {
      TopRowsLength(r, r);
      BottomRowsLength(r, 0);
      assert |middle| == 2 * r;
      assert |bottom| == r * r;
      assert 2 * r * (r + 1) == r * r + 2 * r + r * r;
    }
  }

  /** `result === target ? 1 : 0` for the sample at the centre plus `offset`:
      a null sample is never equal to a number. */
  function Hit(sample: (int, int) -> Option<int>, center: Point, target: int, offset: Offset): nat
  {
    if sample(center.x + offset.dx, center.y + offset.dy) == Some(target) then 1 else 0
  }

  /** The number of offsets of `kernel`, counted with repetition, whose sample is `target`. */
  function CountMatches(sample: (int, int) -> Option<int>, center: Point, target: int, kernel: seq<Offset>): (n: nat)
  {
    if kernel == [] then 0
    else
      CountMatches(sample, center, target, kernel[..|kernel| - 1])
      + Hit(sample, center, target, kernel[|kernel| - 1])
  }

  /** No more matches than offsets. */
  lemma {:induction false} CountAtMost(sample: (int, int) -> Option<int>, center: Point, target: int, kernel: seq<Offset>)
    ensures CountMatches(sample, center, target, kernel) <= |kernel|
    decreases |kernel|
  {
    if kernel != [] {
      CountAtMost(sample, center, target, kernel[..|kernel| - 1]);
    }
  }

  lemma {:induction false} CountAppend(sample: (int, int) -> Option<int>, center: Point, target: int, a: seq<Offset>, b: seq<Offset>)
    ensures CountMatches(sample, center, target, a + b)
         == CountMatches(sample, center, target, a)
          + CountMatches(sample, center, target, b)
    decreases |b|
  {
    if b == [] {
      assert a + b == a;
    } else {
      var front := b[..|b| - 1];
      assert (a + b)[..|a + b| - 1] == a + front;
      assert (a + b)[|a + b| - 1] == b[|b| - 1];
      CountAppend(sample, center, target, a, front);
    }
  }

  /** One more offset adds its hit. */
  lemma CountSnoc(sample: (int, int) -> Option<int>, center: Point, target: int, a: seq<Offset>, o: Offset)
    ensures CountMatches(sample, center, target, a + [o])
         == CountMatches(sample, center, target, a)
          + Hit(sample, center, target, o)
  {
    assert (a + [o])[..|a|] == a;
  }

  /** The hits along row `ky`, kernelX from `lo` up to `hi`, as one loop adds them. */
  function RowCount(sample: (int, int) -> Option<int>, center: Point, target: int, ky: int, lo: int, hi: int): nat
    decreases hi - lo
  {
    if hi < lo then 0 else RowCount(sample, center, target, ky, lo, hi - 1) + Hit(sample, center, target, Offset(hi, ky))
  }

  lemma {:induction false} RowCountIsCount(sample: (int, int) -> Option<int>, center: Point, target: int,
                                           ky: int, lo: int, hi: int)
    decreases hi - lo
    ensures RowCount(sample, center, target, ky, lo, hi) == CountMatches(sample, center, target, Row(ky, lo, hi))
  {
    if hi >= lo {
      RowCountIsCount(sample, center, target, ky, lo, hi - 1);
      CountSnoc(sample, center, target, Row(ky, lo, hi - 1), Offset(hi, ky));
    }
  }

  /** The hits along row `ky` of the Moore loop, kernelX from `-r` up to `hi`, the centre skipped. */
  function MooreRowCount(sample: (int, int) -> Option<int>, center: Point, target: int, r: int, ky: int, hi: int): nat
    decreases hi + r
  {
    if hi < -r then 0
    else MooreRowCount(sample, center, target, r, ky, hi - 1)
         + (if hi == 0 && ky == 0 then 0 else Hit(sample, center, target, Offset(hi, ky)))
  }

  lemma {:induction false} MooreRowCountIsCount(sample: (int, int) -> Option<int>, center: Point, target: int,
                                                r: int, ky: int, hi: int)
    decreases hi + r
    ensures MooreRowCount(sample, center, target, r, ky, hi) == CountMatches(sample, center, target, MooreRow(r, ky, hi))
  {
    if hi >= -r {
      MooreRowCountIsCount(sample, center, target, r, ky, hi - 1);
      if hi == 0 && ky == 0 {
        assert MooreRow(r, ky, hi - 1) + [] == MooreRow(r, ky, hi - 1);
      } else {
        CountSnoc(sample, center, target, MooreRow(r, ky, hi - 1), Offset(hi, ky));
      }
    }
  }

  /** The hits of the Moore loop over rows `-r` up to `hi`. */
  function MooreRowsCount(sample: (int, int) -> Option<int>, center: Point, target: int, r: int, hi: int): nat
    decreases hi + r
  {
    if hi < -r then 0
    else MooreRowsCount(sample, center, target, r, hi - 1) + MooreRowCount(sample, center, target, r, hi, r)
  }

  lemma {:induction false} MooreRowsCountIsCount(sample: (int, int) -> Option<int>, center: Point, target: int,
                                                 r: int, hi: int)
    decreases hi + r
    ensures MooreRowsCount(sample, center, target, r, hi) == CountMatches(sample, center, target, MooreRows(r, hi))
  {
    if hi >= -r {
      MooreRowsCountIsCount(sample, center, target, r, hi - 1);
      MooreRowCountIsCount(sample, center, target, r, hi, r);
      CountAppend(sample, center, target, MooreRows(r, hi - 1), MooreRow(r, hi, r));
    }
  }

  /** One more row of the Moore loop. */
  lemma MooreRowsCountStep(sample: (int, int) -> Option<int>, center: Point, target: int, r: int, hi: int)
    requires -r <= hi
    ensures MooreRowsCount(sample, center, target, r, hi)
         == MooreRowsCount(sample, center, target, r, hi - 1) + MooreRowCount(sample, center, target, r, hi, r)
  {
  }

  /** The hits of the top rows of the diamond, rangeX from 0 up to `n - 1`. */
  function TopRowsCount(sample: (int, int) -> Option<int>, center: Point, target: int, r: int, n: int): nat
    decreases n
  {
    if n <= 0 then 0
    else TopRowsCount(sample, center, target, r, n - 1) + RowCount(sample, center, target, -r + n - 1, -(n - 1), n - 1)
  }

  lemma {:induction false} TopRowsCountIsCount(sample: (int, int) -> Option<int>, center: Point, target: int,
                                               r: int, n: int)
    decreases n
    ensures TopRowsCount(sample, center, target, r, n) == CountMatches(sample, center, target, TopRows(r, n))
  {
    if n > 0 {
      var k := n - 1;
      var row := Row(-r + k, -k, k);
      assert TopRows(r, n) == TopRows(r, k) + row;
      assert TopRowsCount(sample, center, target, r, n)
          == TopRowsCount(sample, center, target, r, k) + RowCount(sample, center, target, -r + k, -k, k);
      TopRowsCountIsCount(sample, center, target, r, k);
      RowCountIsCount(sample, center, target, -r + k, -k, k);
      CountAppend(sample, center, target, TopRows(r, k), row);
    }
  }

  /** The hits of the bottom rows of the diamond, rangeX from `r - 1` down to `j`. */
  function BottomRowsCount(sample: (int, int) -> Option<int>, center: Point, target: int, r: int, j: int): nat
    decreases r - j
  {
    if j >= r then 0
    else BottomRowsCount(sample, center, target, r, j + 1) + RowCount(sample, center, target, r - j, -j, j)
  }

  /** One more row at the top of the bottom half. */
  lemma BottomRowsCountStep(sample: (int, int) -> Option<int>, center: Point, target: int, r: int, j: int)
    requires j < r
    ensures BottomRowsCount(sample, center, target, r, j)
         == BottomRowsCount(sample, center, target, r, j + 1) + RowCount(sample, center, target, r - j, -j, j)
  {
  }

  lemma {:induction false} BottomRowsCountIsCount(sample: (int, int) -> Option<int>, center: Point, target: int,
                                                  r: int, j: int)
    decreases r - j
    ensures BottomRowsCount(sample, center, target, r, j) == CountMatches(sample, center, target, BottomRows(r, j))
  {
    if j < r {
      BottomRowsCountIsCount(sample, center, target, r, j + 1);
      RowCountIsCount(sample, center, target, r - j, -j, j);
      CountAppend(sample, center, target, BottomRows(r, j + 1), Row(r - j, -j, j));
    }
  }

  /** The von Neumann count split the way its loops add it up: top rows, the
      two halves of the middle row, bottom rows. */
  lemma VonNeumannCountSplit(sample: (int, int) -> Option<int>, center: Point, target: int, r: int)
    ensures CountMatches(sample, center, target, VonNeumannOffsets(r))
         == TopRowsCount(sample, center, target, r, r)
          + RowCount(sample, center, target, 0, -r, -1) + RowCount(sample, center, target, 0, 1, r)
          + BottomRowsCount(sample, center, target, r, 0)
  {
    CountThreeParts(sample, center, target, TopRows(r, r), MiddleRow(r), BottomRows(r, 0));
    MiddleRowCount(sample, center, target, r);
    TopRowsCountIsCount(sample, center, target, r, r);
    BottomRowsCountIsCount(sample, center, target, r, 0);
  }

  /** The middle row counted as its two halves. */
  lemma MiddleRowCount(sample: (int, int) -> Option<int>, center: Point, target: int, r: int)
    ensures CountMatches(sample, center, target, MiddleRow(r))
         == RowCount(sample, center, target, 0, -r, -1) + RowCount(sample, center, target, 0, 1, r)
  {
    CountAppend(sample, center, target, Row(0, -r, -1), Row(0, 1, r));
    RowCountIsCount(sample, center, target, 0, -r, -1);
    RowCountIsCount(sample, center, target, 0, 1, r);
  }

  lemma CountThreeParts(sample: (int, int) -> Option<int>, center: Point, target: int, a: seq<Offset>, b: seq<Offset>, c: seq<Offset>)
    ensures CountMatches(sample, center, target, a + b + c)
         == CountMatches(sample, center, target, a)
          + CountMatches(sample, center, target, b)
          + CountMatches(sample, center, target, c)
  {
    CountAppend(sample, center, target, a, b);
    CountAppend(sample, center, target, a + b, c);
  }

  /** The eight neighbours the Generation and Lifelike loops sample, in their order. */
  function Neighbors8(): seq<Offset>
  {
    [Offset(-1, -1), Offset(0, -1), Offset(1, -1),
     Offset(-1, 0), Offset(1, 0),
     Offset(-1, 1), Offset(0, 1), Offset(1, 1)]
  }

  /** The eight explicit neighbours are the Moore kernel of range 1, in the same order. */
  lemma Neighbors8IsMooreOne()
    ensures MooreOffsets(1) == Neighbors8()
  {
    assert MooreRow(1, -1, 1) == [Offset(-1, -1), Offset(0, -1), Offset(1, -1)];
    assert MooreRow(1, 0, 1) == [Offset(-1, 0), Offset(1, 0)];
    assert MooreRow(1, 1, 1) == [Offset(-1, 1), Offset(0, 1), Offset(1, 1)];
    assert MooreRows(1, -2) == [];
  }

  /** The count over the eight neighbours is the sum of the eight explicit hits,
      added in the order the Generation loop adds them. */
  lemma CountNeighbors8(sample: (int, int) -> Option<int>, center: Point, target: int)
    ensures CountMatches(sample, center, target, Neighbors8())
         == Hit(sample, center, target, Offset(-1, -1)) + Hit(sample, center, target, Offset(0, -1))
          + Hit(sample, center, target, Offset(1, -1)) + Hit(sample, center, target, Offset(-1, 0))
          + Hit(sample, center, target, Offset(1, 0)) + Hit(sample, center, target, Offset(-1, 1))
          + Hit(sample, center, target, Offset(0, 1)) + Hit(sample, center, target, Offset(1, 1))
  {
    CountEight(sample, center, target, Offset(-1, -1), Offset(0, -1), Offset(1, -1), Offset(-1, 0),
               Offset(1, 0), Offset(-1, 1), Offset(0, 1), Offset(1, 1));
  }

  /** The count over an eight-offset kernel, one hit per offset in order. */
  lemma CountEight(sample: (int, int) -> Option<int>, center: Point, target: int,
                   o1: Offset, o2: Offset, o3: Offset, o4: Offset, o5: Offset, o6: Offset, o7: Offset, o8: Offset)
    ensures CountMatches(sample, center, target, [o1, o2, o3, o4, o5, o6, o7, o8])
         == Hit(sample, center, target, o1) + Hit(sample, center, target, o2)
          + Hit(sample, center, target, o3) + Hit(sample, center, target, o4)
          + Hit(sample, center, target, o5) + Hit(sample, center, target, o6)
          + Hit(sample, center, target, o7) + Hit(sample, center, target, o8)
  {
    var k1 := [o1];
    var k2 := k1 + [o2];
    var k3 := k2 + [o3];
    var k4 := k3 + [o4];
    var k5 := k4 + [o5];
    var k6 := k5 + [o6];
    var k7 := k6 + [o7];
    CountSnoc(sample, center, target, [], o1);
    assert [] + [o1] == k1;
    CountSnoc(sample, center, target, k1, o2);
    CountSnoc(sample, center, target, k2, o3);
    CountSnoc(sample, center, target, k3, o4);
    CountSnoc(sample, center, target, k4, o5);
    CountSnoc(sample, center, target, k5, o6);
    CountSnoc(sample, center, target, k6, o7);
    CountSnoc(sample, center, target, k7, o8);
    assert k7 + [o8] == [o1, o2, o3, o4, o5, o6, o7, o8];
  }
}
