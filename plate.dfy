/** `initialize_plate` of heat2dPara.c: fills the border of the M x N grid with the four
    edge values and every interior cell with the mean of the border. The cell type is
    generic; the floating-point `+` and `/` of the mean are parameters `add` and `divide`,
    and `zero` is the initial `0.0`. */
module Plate {
  import opened Partition

  /** `n` repetitions of the pair x, y: the terms one of the mean's loops adds. */
  function Pairs<V>(x: V, y: V, n: nat): (r: seq<V>)
    ensures |r| == 2 * n
  {
    if n == 0 then [] else Pairs(x, y, n - 1) + [x, y]
  }

  /** Left-to-right accumulation, as `mean += term` does it. */
  function Sum<V>(add: (V, V) -> V, zero: V, s: seq<V>): V
  {
    if |s| == 0 then zero else add(Sum(add, zero, s[..|s| - 1]), s[|s| - 1])
  }

  /** Appending a pair adds its two terms, first x then y. */
  lemma SumPair<V>(add: (V, V) -> V, zero: V, s: seq<V>, x: V, y: V)
    ensures Sum(add, zero, s + [x, y]) == add(add(Sum(add, zero, s), x), y)
  {
    assert (s + [x, y])[..|s| + 1] == s + [x];
    assert (s + [x])[..|s|] == s;
  }

  /** The values the mean adds, in order: column 0 and column N-1 of each row
      `1 .. M-2`, then row 0 and row M-1 of each column, as they stand once the border is
      filled (where the border loops overlap, the later write wins: column N-1 over
      column 0 when N == 1, row M-1 over row 0 when M == 1). */
  function BorderTerms<V>(M: nat, N: nat, tl: V, tr: V, tt: V, tb: V): seq<V>
  {
    Pairs(if N == 1 then tr else tl, tr, Inner(M)) + Pairs(if M == 1 then tb else tt, tb, N)
  }

  /** The divisor `2M + 2N - 4` is the number of terms the mean adds exactly when the
      plate has two rows or more; with one row, row 0 is also row M-1 and its terms are
      added twice, two more than the divisor counts; with no rows, four more. */
  lemma MeanDivisor<V>(M: nat, N: nat, tl: V, tr: V, tt: V, tb: V)
    ensures |BorderTerms(M, N, tl, tr, tt, tb)| == 2 * M + 2 * N - 4 <==> 2 <= M
    ensures M == 1 ==> |BorderTerms(M, N, tl, tr, tt, tb)| == 2 * M + 2 * N - 4 + 2
    ensures M == 0 ==> |BorderTerms(M, N, tl, tr, tt, tb)| == 2 * M + 2 * N - 4 + 4
  {
  }

  /** Cell (a, b) lies on the border of an M x N plate. */
  predicate OnBorder(M: int, N: int, a: int, b: int)
  {
    a == 0 || a == M - 1 || b == 0 || b == N - 1
  }

  /** What the border loops leave in border cell (a, b): row M-1 is written last, then
      row 0, then column N-1, then column 0. */
  function BorderValue<V>(M: int, N: int, tl: V, tr: V, tt: V, tb: V, a: int, b: int): V
  {
    if a == M - 1 then tb else if a == 0 then tt else if b == N - 1 then tr else tl
  }

  /** The mean the interior is filled with. */
  function Mean<V>(M: nat, N: nat, tl: V, tr: V, tt: V, tb: V, zero: V, add: (V, V) -> V, divide: (V, int) -> V): V
  {
    divide(Sum(add, zero, BorderTerms(M, N, tl, tr, tt, tb)), 2 * M + 2 * N - 4)
  }

  /** Every border cell holds the value the border loops leave in it. */
  ghost predicate BorderFilled<V>(grid: array2<V>, tl: V, tr: V, tt: V, tb: V)
    reads grid
  {
    forall a, b :: 0 <= a < grid.Length0 && 0 <= b < grid.Length1 && OnBorder(grid.Length0, grid.Length1, a, b) ==>
      grid[a, b] == BorderValue(grid.Length0, grid.Length1, tl, tr, tt, tb, a, b)
  }

  /** The first loop of the mean: adds column 0 and column N-1 of rows `1 .. M-2`,
      row by row, to `acc`. */
  method AddSides<V>(grid: array2<V>, tl: V, tr: V, tt: V, tb: V, zero: V, add: (V, V) -> V) returns (acc: V)
    requires 3 <= grid.Length0 ==> 1 <= grid.Length1
    requires BorderFilled(grid, tl, tr, tt, tb)
    ensures acc == Sum(add, zero, Pairs(if grid.Length1 == 1 then tr else tl, tr, Inner(grid.Length0)))
  {
    var M, N := grid.Length0, grid.Length1;
    ghost var lv := if N == 1 then tr else tl;
    acc := zero;
    var i := 1;
    while i < M - 1
      invariant 1 <= i && i - 1 <= Inner(M)
      invariant acc == Sum(add, zero, Pairs(lv, tr, i - 1))
    {
      assert grid[i, 0] == lv && grid[i, N - 1] == tr by {
        assert OnBorder(M, N, i, 0) && OnBorder(M, N, i, N - 1);
      }
      ghost var before := Pairs(lv, tr, i - 1);
      acc := add(acc, grid[i, 0]);
      acc := add(acc, grid[i, N - 1]);
      assert acc == Sum(add, zero, Pairs(lv, tr, i)) by {
        SumPair(add, zero, before, lv, tr);
      }
      i := i + 1;
    }
  }

  /** The second loop of the mean: adds row 0 and row M-1 of every column, column by
      column, to the running sum `acc` of the terms `sides`. */
  method AddEdges<V>(grid: array2<V>, tl: V, tr: V, tt: V, tb: V, zero: V, add: (V, V) -> V,
                     ghost sides: seq<V>, start: V) returns (acc: V)
    requires 1 <= grid.Length1 ==> 1 <= grid.Length0
    requires BorderFilled(grid, tl, tr, tt, tb)
    requires start == Sum(add, zero, sides)
    ensures acc == Sum(add, zero, sides + Pairs(if grid.Length0 == 1 then tb else tt, tb, grid.Length1))
  {
    var M, N := grid.Length0, grid.Length1;
    ghost var tv := if M == 1 then tb else tt;
    assert sides + Pairs(tv, tb, 0) == sides;
    acc := start;
    var j := 0;
    while j < N
      invariant j <= N
      invariant acc == Sum(add, zero, sides + Pairs(tv, tb, j))
    {
      assert grid[0, j] == tv && grid[M - 1, j] == tb by {
        assert OnBorder(M, N, 0, j) && OnBorder(M, N, M - 1, j);
      }
      ghost var before := sides + Pairs(tv, tb, j);
      acc := add(acc, grid[0, j]);
      acc := add(acc, grid[M - 1, j]);
      assert acc == Sum(add, zero, sides + Pairs(tv, tb, j + 1)) by {
        SumPair(add, zero, before, tv, tb);
        assert sides + Pairs(tv, tb, j + 1) == before + [tv, tb];
      }
      j := j + 1;
    }
  }

  /** The mean: the border cells added in the source's order, divided by
      `2M + 2N - 4`. */
  method BorderMean<V>(grid: array2<V>, tl: V, tr: V, tt: V, tb: V, zero: V, add: (V, V) -> V, divide: (V, int) -> V)
    returns (mean: V)
    requires 3 <= grid.Length0 ==> 1 <= grid.Length1
    requires 1 <= grid.Length1 ==> 1 <= grid.Length0
    requires BorderFilled(grid, tl, tr, tt, tb)
    ensures mean == Mean(grid.Length0, grid.Length1, tl, tr, tt, tb, zero, add, divide)
  {
    var acc := AddSides(grid, tl, tr, tt, tb, zero, add);
    acc := AddEdges(grid, tl, tr, tt, tb, zero, add,
                    Pairs(if grid.Length1 == 1 then tr else tl, tr, Inner(grid.Length0)), acc);
    mean := divide(acc, 2 * grid.Length0 + 2 * grid.Length1 - 4);
  }

  /** `initialize_plate`: column 0 and column N-1 of rows `1 .. M-2` get Tl and Tr, then
      rows 0 and M-1 get Tt and Tb over every column (corners included), then every
      interior cell gets the mean of the border. */
  method InitializePlate<V>(grid: array2<V>, tl: V, tr: V, tt: V, tb: V, zero: V, add: (V, V) -> V, divide: (V, int) -> V)
    requires 3 <= grid.Length0 ==> 1 <= grid.Length1
    requires 1 <= grid.Length1 ==> 1 <= grid.Length0
    modifies grid
    ensures BorderFilled(grid, tl, tr, tt, tb)
    ensures forall a, b :: 1 <= a < grid.Length0 - 1 && 1 <= b < grid.Length1 - 1 ==>
      grid[a, b] == Mean(grid.Length0, grid.Length1, tl, tr, tt, tb, zero, add, divide)
  {
    var M, N := grid.Length0, grid.Length1;
    var i := 1;
    while i < M - 1
      invariant 1 <= i && i - 1 <= Inner(M)
      invariant forall a, b :: 1 <= a < i && 0 <= b < N && (b == 0 || b == N - 1) ==>
        grid[a, b] == BorderValue(M, N, tl, tr, tt, tb, a, b)
    {
      grid[i, 0] := tl;
      grid[i, N - 1] := tr;
      i := i + 1;
    }
    var j := 0;
    while j < N
      invariant j <= N
      invariant forall a, b :: 1 <= a < M - 1 && 0 <= b < N && (b == 0 || b == N - 1) ==>
        grid[a, b] == BorderValue(M, N, tl, tr, tt, tb, a, b)
      invariant forall a, b :: 0 <= a < M && 0 <= b < j && (a == 0 || a == M - 1) ==>
        grid[a, b] == BorderValue(M, N, tl, tr, tt, tb, a, b)
    {
      grid[0, j] := tt;
      grid[M - 1, j] := tb;
      j := j + 1;
    }
    var mean := BorderMean(grid, tl, tr, tt, tb, zero, add, divide);
    i := 1;
    while i < M - 1
      invariant 1 <= i && i - 1 <= Inner(M)
      invariant BorderFilled(grid, tl, tr, tt, tb)
      invariant forall a, b :: 1 <= a < i && 1 <= b < N - 1 ==> grid[a, b] == mean
    {
      j := 1;
      while j < N - 1
        invariant 1 <= j && j - 1 <= Inner(N)
        invariant BorderFilled(grid, tl, tr, tt, tb)
        invariant forall a, b :: 1 <= a < i && 1 <= b < N - 1 ==> grid[a, b] == mean
        invariant forall b :: 1 <= b < j ==> grid[i, b] == mean
      {
        grid[i, j] := mean;
        j := j + 1;
      }
      i := i + 1;
    }
  }
}
