/** The per-iteration index structure of `heat2dSolvePara` in heat2dPara.c: the copy
    phase that refreshes a thread's ghost rows and the stencil loop that updates the
    thread's local rows in place. The cell type is generic and the averaging of the four
    neighbours is a parameter `relax(north, south, west, east)`. */
module Relaxation {
  import opened Partition

  /** Every row of `v` has `n` cells. */
  predicate Rect<V>(v: seq<seq<V>>, n: nat)
  {
    forall a :: 0 <= a < |v| ==> |v[a]| == n
  }

  /** One step of the stencil loop on a local view: cell (i, j) becomes the relaxation of
      its current north, south, west and east neighbours; nothing else changes. */
  function RelaxAt<V>(v: seq<seq<V>>, n: nat, i: nat, j: nat, relax: (V, V, V, V) -> V): (r: seq<seq<V>>)
    requires Rect(v, n) && 1 <= i < |v| - 1 && 1 <= j < n - 1
    ensures |r| == |v| && Rect(r, n)
    ensures forall a, b :: 0 <= a < |v| && 0 <= b < n && (a != i || b != j) ==> r[a][b] == v[a][b]
    ensures r[i][j] == relax(v[i - 1][j], v[i + 1][j], v[i][j - 1], v[i][j + 1])
  {
    v[i := v[i][j := relax(v[i - 1][j], v[i + 1][j], v[i][j - 1], v[i][j + 1])]]
  }

  /** The inner loop after its first k iterations: cells (i, 1) .. (i, k) relaxed in that
      order, each seeing the cells already relaxed before it. */
  function SweepRow<V>(v: seq<seq<V>>, n: nat, i: nat, k: nat, relax: (V, V, V, V) -> V): (r: seq<seq<V>>)
    requires Rect(v, n) && 1 <= i < |v| - 1 && k <= Inner(n)
    ensures |r| == |v| && Rect(r, n)
    decreases k
  {
    if k == 0 then v else RelaxAt(SweepRow(v, n, i, k - 1, relax), n, i, k, relax)
  }

  /** The outer loop after its first k iterations: rows 1 .. k swept in order. */
  function SweepRows<V>(v: seq<seq<V>>, n: nat, k: nat, relax: (V, V, V, V) -> V): (r: seq<seq<V>>)
    requires Rect(v, n) && k <= Inner(|v|)
    ensures |r| == |v| && Rect(r, n)
    decreases k
  {
    if k == 0 then v else SweepRow(SweepRows(v, n, k - 1, relax), n, k, Inner(n), relax)
  }

  /** One full in-place sweep of a local view with `|v|` rows and n columns: every cell
      of rows `1 .. |v|-2` and columns `1 .. n-2`, in row-major order. */
  function Relaxed<V>(v: seq<seq<V>>, n: nat, relax: (V, V, V, V) -> V): (r: seq<seq<V>>)
    requires Rect(v, n)
    ensures |r| == |v| && Rect(r, n)
  {
    SweepRows(v, n, Inner(|v|), relax)
  }

  /** Cell (a, b) of r is the relaxation of r's north and west neighbours (already
      updated by an in-place sweep) and v's south and east neighbours (not yet updated). */
  ghost predicate InPlaceStep<V>(r: seq<seq<V>>, v: seq<seq<V>>, n: nat, a: nat, b: nat, relax: (V, V, V, V) -> V)
    requires Rect(v, n) && |r| == |v| && Rect(r, n) && 1 <= a < |v| - 1 && 1 <= b < n - 1
  {
    r[a][b] == relax(r[a - 1][b], v[a + 1][b], r[a][b - 1], v[a][b + 1])
  }

  /** The first k steps of a row's sweep touch only cells (i, 1) .. (i, k). */
  lemma {:induction false} SweepRowFrame<V>(v: seq<seq<V>>, n: nat, i: nat, k: nat, relax: (V, V, V, V) -> V)
    requires Rect(v, n) && 1 <= i < |v| - 1 && k <= Inner(n)
    ensures forall a, b :: 0 <= a < |v| && 0 <= b < n && !(a == i && 1 <= b <= k) ==>
      SweepRow(v, n, i, k, relax)[a][b] == v[a][b]
  {
    if k > 0 {
      SweepRowFrame(v, n, i, k - 1, relax);
    }
  }

  /** The first k rows of a sweep touch only cells of rows `1 .. k`, columns `1 .. n-2`. */
  lemma {:induction false} SweepRowsFrame<V>(v: seq<seq<V>>, n: nat, k: nat, relax: (V, V, V, V) -> V)
    requires Rect(v, n) && k <= Inner(|v|)
    ensures forall a, b :: 0 <= a < |v| && 0 <= b < n && !(1 <= a <= k && 1 <= b < n - 1) ==>
      SweepRows(v, n, k, relax)[a][b] == v[a][b]
  {
    if k > 0 {
      SweepRowsFrame(v, n, k - 1, relax);
      SweepRowFrame(SweepRows(v, n, k - 1, relax), n, k, Inner(n), relax);
    }
  }

  /** A sweep never changes the first and last local rows (a thread's ghost rows or the
      plate's top and bottom rows) nor the first and last columns. */
  lemma RelaxedKeepsFrame<V>(v: seq<seq<V>>, n: nat, relax: (V, V, V, V) -> V)
    requires Rect(v, n)
    ensures forall a, b :: 0 <= a < |v| && 0 <= b < n && (a == 0 || a == |v| - 1 || b == 0 || b == n - 1) ==>
      Relaxed(v, n, relax)[a][b] == v[a][b]
  {
    SweepRowsFrame(v, n, Inner(|v|), relax);
  }

  /** Within one row, cell (i, b) is relaxed from the not yet relaxed north, south and
      east cells and the already relaxed west cell. */
  lemma {:induction false} SweepRowValues<V>(w: seq<seq<V>>, n: nat, i: nat, k: nat, relax: (V, V, V, V) -> V)
    requires Rect(w, n) && 1 <= i < |w| - 1 && k <= Inner(n)
    ensures forall b :: 1 <= b <= k ==>
      SweepRow(w, n, i, k, relax)[i][b] ==
        relax(w[i - 1][b], w[i + 1][b], SweepRow(w, n, i, k, relax)[i][b - 1], w[i][b + 1])
  {
    if k > 0 {
      var r := SweepRow(w, n, i, k - 1, relax);
      SweepRowValues(w, n, i, k - 1, relax);
      SweepRowFrame(w, n, i, k - 1, relax);
    }
  }

  /** The in-place (Gauss–Seidel ordered) character of the sweep: after rows `1 .. k`,
      each swept cell (a, b) holds the relaxation of its already updated north and west
      neighbours and its not yet updated south and east neighbours. */
  lemma {:induction false} SweepRowsValues<V>(v: seq<seq<V>>, n: nat, k: nat, relax: (V, V, V, V) -> V)
    requires Rect(v, n) && k <= Inner(|v|)
    ensures forall a, b :: 1 <= a <= k && 1 <= b < n - 1 ==>
      InPlaceStep(SweepRows(v, n, k, relax), v, n, a, b, relax)
  {
    if k > 0 {
      var prev := SweepRows(v, n, k - 1, relax);
      var R := SweepRows(v, n, k, relax);
      SweepRowsValues(v, n, k - 1, relax);
      SweepRowsFrame(v, n, k - 1, relax);
      SweepRowFrame(prev, n, k, Inner(n), relax);
      SweepRowValues(prev, n, k, Inner(n), relax);
      forall a, b | 1 <= a <= k && 1 <= b < n - 1
        ensures InPlaceStep(R, v, n, a, b, relax)
      {
        if a < k {
          assert InPlaceStep(prev, v, n, a, b, relax);
        } else {
          assert R[a][b] == relax(prev[a - 1][b], prev[a + 1][b], R[a][b - 1], prev[a][b + 1]);
        }
      }
    }
  }

  /** The full sweep satisfies the in-place relaxation equations on every interior cell. */
  lemma RelaxedIsInPlaceSweep<V>(v: seq<seq<V>>, n: nat, relax: (V, V, V, V) -> V)
    requires Rect(v, n)
    ensures forall a, b :: 1 <= a < |v| - 1 && 1 <= b < n - 1 ==>
      InPlaceStep(Relaxed(v, n, relax), v, n, a, b, relax)
  {
    SweepRowsValues(v, n, Inner(|v|), relax);
  }

  /** The in-place equations and the untouched frame determine the sweep: any view that
      keeps the frame of v and satisfies the equations is `Relaxed(v)`. */
  lemma RelaxedUnique<V>(v: seq<seq<V>>, n: nat, relax: (V, V, V, V) -> V, r: seq<seq<V>>)
    requires Rect(v, n) && |r| == |v| && Rect(r, n)
    requires forall a, b :: 0 <= a < |v| && 0 <= b < n && (a == 0 || a == |v| - 1 || b == 0 || b == n - 1) ==>
      r[a][b] == v[a][b]
    requires forall a, b :: 1 <= a < |v| - 1 && 1 <= b < n - 1 ==> InPlaceStep(r, v, n, a, b, relax)
    ensures r == Relaxed(v, n, relax)
  {
    var R := Relaxed(v, n, relax);
    RelaxedKeepsFrame(v, n, relax);
    RelaxedIsInPlaceSweep(v, n, relax);
    forall a | 0 <= a < |v|
      ensures r[a] == R[a]
    {
      forall b | 0 <= b < n
        ensures r[a][b] == R[a][b]
      {
        SameCell(v, n, relax, r, a, b);
      }
    }
  }

  /** The cell-by-cell induction, in row-major order, behind RelaxedUnique. */
  lemma {:induction false} SameCell<V>(v: seq<seq<V>>, n: nat, relax: (V, V, V, V) -> V, r: seq<seq<V>>, a: nat, b: nat)
    requires Rect(v, n) && |r| == |v| && Rect(r, n)
    requires forall a, b :: 0 <= a < |v| && 0 <= b < n && (a == 0 || a == |v| - 1 || b == 0 || b == n - 1) ==>
      r[a][b] == v[a][b] && Relaxed(v, n, relax)[a][b] == v[a][b]
    requires forall a, b :: 1 <= a < |v| - 1 && 1 <= b < n - 1 ==>
      InPlaceStep(r, v, n, a, b, relax) && InPlaceStep(Relaxed(v, n, relax), v, n, a, b, relax)
    requires a < |v| && b < n
    ensures r[a][b] == Relaxed(v, n, relax)[a][b]
    decreases a, b
  {
    if 1 <= a < |v| - 1 && 1 <= b < n - 1 {
      assert InPlaceStep(r, v, n, a, b, relax) && InPlaceStep(Relaxed(v, n, relax), v, n, a, b, relax);
      SameCell(v, n, relax, r, a - 1, b);
      SameCell(v, n, relax, r, a, b - 1);
    }
  }

  /** The grid's cells as a sequence of rows. */
  ghost function Rows<V>(grid: array2<V>): (G: seq<seq<V>>)
    reads grid
    ensures |G| == grid.Length0 && Rect(G, grid.Length1)
    ensures forall g, c :: 0 <= g < grid.Length0 && 0 <= c < grid.Length1 ==> G[g][c] == grid[g, c]
  {
    seq(grid.Length0, g requires 0 <= g < grid.Length0 reads grid =>
      seq(grid.Length1, c requires 0 <= c < grid.Length1 reads grid => grid[g, c]))
  }

  /** Rows `Base .. Base + localM - 1` of the grid G: a thread's local view once its copy
      phase has run. */
  function Window<V>(d: Descriptor, G: seq<seq<V>>): (w: seq<seq<V>>)
    requires 0 <= Base(d) && Base(d) + d.localM <= |G|
    ensures |w| == d.localM
    ensures forall a :: 0 <= a < |w| ==> w[a] == G[Base(d) + a]
  {
    G[Base(d) .. Base(d) + d.localM]
  }

  /** Row g of the grid after one iteration of T threads over grid G (N columns): with
      a single thread nothing changes (WHOLE's local height is 0); otherwise it is row
      `g - Base` of the sweep that the owner of g, thread `g / step`, makes of its window. */
  ghost function RoundRow<V>(G: seq<seq<V>>, T: nat, N: nat, relax: (V, V, V, V) -> V, g: nat): (row: seq<V>)
    requires 1 <= T && (T > 1 ==> 2 <= |G|) && Rect(G, N) && g < |G|
    ensures |row| == N
  {
    if T == 1 then G[g]
    else
      RowOwner(|G|, T, g);
      OwnerRow(|G|, T, g / Step(|G|, T), g);
      var d := Describe(|G|, T, g / Step(|G|, T));
      TableIsWindow(|G|, T, g / Step(|G|, T));
      Relaxed(Window(d, G), N, relax)[g - Base(d)]
  }

  /** The grid after one iteration of the solver loop: every thread's copy phase, then
      every thread's stencil loop. */
  ghost function RoundResult<V>(G: seq<seq<V>>, T: nat, N: nat, relax: (V, V, V, V) -> V): (R: seq<seq<V>>)
    requires 1 <= T && (T > 1 ==> 2 <= |G|) && Rect(G, N)
    ensures |R| == |G| && Rect(R, N)
  {
    seq(|G|, g requires 0 <= g < |G| => RoundRow(G, T, N, relax, g))
  }

  /** For T >= 2, every row g of thread k's block comes out of an iteration as row
      `g - Base` of the sweep of k's window. */
  lemma RoundRowOfBlock<V>(G: seq<seq<V>>, T: nat, N: nat, relax: (V, V, V, V) -> V, k: nat)
    requires 2 <= |G| && 2 <= T && Rect(G, N) && k < T
    ensures 0 <= Base(Describe(|G|, T, k)) <= Describe(|G|, T, k).copyStart
    ensures Describe(|G|, T, k).copyEnd <= Base(Describe(|G|, T, k)) + Describe(|G|, T, k).localM <= |G|
    ensures forall g :: Describe(|G|, T, k).copyStart <= g < Describe(|G|, T, k).copyEnd ==>
      RoundResult(G, T, N, relax)[g] == Relaxed(Window(Describe(|G|, T, k), G), N, relax)[g - Base(Describe(|G|, T, k))]
  {
    TableIsWindow(|G|, T, k);
    forall g | Describe(|G|, T, k).copyStart <= g < Describe(|G|, T, k).copyEnd
      ensures RoundResult(G, T, N, relax)[g] == Relaxed(Window(Describe(|G|, T, k), G), N, relax)[g - Base(Describe(|G|, T, k))]
    {
      RowOwner(|G|, T, g);
      assert RoundResult(G, T, N, relax)[g] == RoundRow(G, T, N, relax, g);
    }
  }

  /** Row g of thread k's block is an owned row of k's window, and the iteration
      leaves in it the matching row of the sweep of that window. */
  lemma BlockRow<V>(G: seq<seq<V>>, T: nat, N: nat, relax: (V, V, V, V) -> V, k: nat, g: int)
    requires 2 <= |G| && 2 <= T && Rect(G, N) && k < T
    requires Describe(|G|, T, k).copyStart <= g < Describe(|G|, T, k).copyEnd
    ensures 0 <= Base(Describe(|G|, T, k)) && Base(Describe(|G|, T, k)) + Describe(|G|, T, k).localM <= |G|
    ensures 0 <= g - Base(Describe(|G|, T, k)) < Describe(|G|, T, k).localM
    ensures Describe(|G|, T, k).rows[g - Base(Describe(|G|, T, k))] == Owned(g)
    ensures RoundResult(G, T, N, relax)[g] == Relaxed(Window(Describe(|G|, T, k), G), N, relax)[g - Base(Describe(|G|, T, k))]
  {
    RoundRowOfBlock(G, T, N, relax, k);
    OwnerRow(|G|, T, k, g);
  }

  /** An iteration never changes the plate's border: rows 0 and M-1 and columns 0 and
      N-1 keep the values they had. */
  lemma RoundKeepsBorder<V>(G: seq<seq<V>>, T: nat, N: nat, relax: (V, V, V, V) -> V)
    requires 1 <= T && (T > 1 ==> 2 <= |G|) && Rect(G, N)
    ensures forall g, c :: 0 <= g < |G| && 0 <= c < N && (g == 0 || g == |G| - 1 || c == 0 || c == N - 1) ==>
      RoundResult(G, T, N, relax)[g][c] == G[g][c]
  {
    forall g, c | 0 <= g < |G| && 0 <= c < N && (g == 0 || g == |G| - 1 || c == 0 || c == N - 1)
      ensures RoundResult(G, T, N, relax)[g][c] == G[g][c]
    {
      if T > 1 {
        RowOwner(|G|, T, g);
        BlockKeepsBorder(G, T, N, relax, g / Step(|G|, T), g, c);
      } else {
        assert RoundResult(G, T, N, relax)[g] == RoundRow(G, T, N, relax, g);
      }
    }
  }

  /** RoundKeepsBorder for a border cell whose row lies in thread k's block. */
  lemma BlockKeepsBorder<V>(G: seq<seq<V>>, T: nat, N: nat, relax: (V, V, V, V) -> V, k: nat, g: nat, c: nat)
    requires 2 <= |G| && 2 <= T && Rect(G, N) && k < T && g < |G| && c < N
    requires Describe(|G|, T, k).copyStart <= g < Describe(|G|, T, k).copyEnd
    requires g == 0 || g == |G| - 1 || c == 0 || c == N - 1
    ensures RoundResult(G, T, N, relax)[g][c] == G[g][c]
  {
    var d := Describe(|G|, T, k);
    RoundRowOfBlock(G, T, N, relax, k);
    RelaxedKeepsFrame(Window(d, G), N, relax);
  }

  /** One interior cell (a, c) of a sweep of v: its in-place equation, with the north
      neighbour read from the untouched first row when a == 1. */
  lemma SweptCell<V>(v: seq<seq<V>>, n: nat, relax: (V, V, V, V) -> V, a: nat, c: nat)
    requires Rect(v, n) && 1 <= a < |v| - 1 && 1 <= c < n - 1
    ensures Relaxed(v, n, relax)[a][c] ==
      relax(Relaxed(v, n, relax)[a - 1][c], v[a + 1][c], Relaxed(v, n, relax)[a][c - 1], v[a][c + 1])
    ensures a == 1 ==> Relaxed(v, n, relax)[0][c] == v[0][c]
  {
    RelaxedIsInPlaceSweep(v, n, relax);
    assert InPlaceStep(Relaxed(v, n, relax), v, n, a, c, relax);
    RelaxedKeepsFrame(v, n, relax);
  }

  /** The update of cell (g, c) by a thread whose window (descriptor d) holds row g
      strictly inside, read off the sweep of that window; the window's first row, a
      possible north neighbour, is kept from G. */
  lemma WindowStep<V>(G: seq<seq<V>>, N: nat, relax: (V, V, V, V) -> V, d: Descriptor, g: nat, c: nat)
    requires Rect(G, N) && 0 <= Base(d) && Base(d) + d.localM <= |G|
    requires 1 <= g - Base(d) < d.localM - 1 && 1 <= c < N - 1
    ensures Relaxed(Window(d, G), N, relax)[g - Base(d)][c] ==
      relax(Relaxed(Window(d, G), N, relax)[g - 1 - Base(d)][c], G[g + 1][c],
            Relaxed(Window(d, G), N, relax)[g - Base(d)][c - 1], G[g][c + 1])
    ensures Relaxed(Window(d, G), N, relax)[0][c] == G[Base(d)][c]
  {
    SweptCell(Window(d, G), N, relax, g - Base(d), c);
    RelaxedKeepsFrame(Window(d, G), N, relax);
  }

  /** BlockStep for the first row of a block below the top one. */
  lemma BlockFirstStep<V>(G: seq<seq<V>>, T: nat, N: nat, relax: (V, V, V, V) -> V, k: nat, g: nat, c: nat)
    requires 2 <= |G| && 2 <= T && Rect(G, N) && k < T
    requires 1 <= g < |G| - 1 && 1 <= c < N - 1
    requires Describe(|G|, T, k).copyStart == g < Describe(|G|, T, k).copyEnd
    ensures RoundResult(G, T, N, relax)[g][c] ==
      relax(G[g - 1][c], G[g + 1][c], RoundResult(G, T, N, relax)[g][c - 1], G[g][c + 1])
  {
    InteriorInWindow(|G|, T, k, g);
    RoundRowOfBlock(G, T, N, relax, k);
    WindowStep(G, N, relax, Describe(|G|, T, k), g, c);
  }

  /** BlockStep for a row of a block other than its first. */
  lemma BlockInnerStep<V>(G: seq<seq<V>>, T: nat, N: nat, relax: (V, V, V, V) -> V, k: nat, g: nat, c: nat)
    requires 2 <= |G| && 2 <= T && Rect(G, N) && k < T
    requires 1 <= g < |G| - 1 && 1 <= c < N - 1
    requires Describe(|G|, T, k).copyStart < g < Describe(|G|, T, k).copyEnd
    ensures RoundResult(G, T, N, relax)[g][c] ==
      relax(RoundResult(G, T, N, relax)[g - 1][c], G[g + 1][c], RoundResult(G, T, N, relax)[g][c - 1], G[g][c + 1])
  {
    var d := Describe(|G|, T, k);
    assert 0 <= Base(d) && Base(d) + d.localM <= |G| && 1 <= g - Base(d) < d.localM - 1 by {
      TableIsWindow(|G|, T, k);
      InteriorInWindow(|G|, T, k, g);
    }
    var R := RoundResult(G, T, N, relax);
    var Rw := Relaxed(Window(d, G), N, relax);
    assert R[g] == Rw[g - Base(d)] && R[g - 1] == Rw[g - 1 - Base(d)] by {
      RoundRowOfBlock(G, T, N, relax, k);
    }
    WindowStep(G, N, relax, d, g, c);
  }

  /** How an iteration updates an interior cell (g, c) with T >= 2 threads: it becomes
      the relaxation of its west neighbour as already updated in this iteration, its
      south and east neighbours as they were before it, and its north neighbour as
      already updated, except on the first row of a block, whose north neighbour is the
      ghost copy of the previous block's last row, taken before the iteration. Inside a
      block the update is in place; across block boundaries it uses the old values. */
  lemma RoundStep<V>(G: seq<seq<V>>, T: nat, N: nat, relax: (V, V, V, V) -> V, g: nat, c: nat)
    requires 2 <= |G| && 2 <= T && Rect(G, N)
    requires 1 <= g < |G| - 1 && 1 <= c < N - 1
    ensures g / Step(|G|, T) < T
    ensures RoundResult(G, T, N, relax)[g][c] ==
      relax(if g == Describe(|G|, T, g / Step(|G|, T)).copyStart then G[g - 1][c] else RoundResult(G, T, N, relax)[g - 1][c],
            G[g + 1][c], RoundResult(G, T, N, relax)[g][c - 1], G[g][c + 1])
  {
    RowOwner(|G|, T, g);
    var k := g / Step(|G|, T);
    if g == Describe(|G|, T, k).copyStart {
      BlockFirstStep(G, T, N, relax, k, g, c);
    } else {
      BlockInnerStep(G, T, N, relax, k, g, c);
    }
  }

  /** One solver thread: its descriptor, the shared grid (`u`) that the owned entries of
      its local row table alias, and its two private ghost-row buffers. A buffer has the
      grid's width when the thread's position calls for that ghost row, and is empty
      otherwise (the source allocates only the ghost rows it needs). */
  class Worker<V(0)> {
    const grid: array2<V>
    const threads: nat
    const desc: Descriptor
    /** The ghost row at local index 0 (BOT and MID). */
    const above: array<V>
    /** The ghost row at local index `localM - 1` (TOP and MID). */
    const below: array<V>

    /** The row table is laid out over the grid, and each ghost buffer has the grid's
        width exactly when the position calls for that ghost row. */
    ghost predicate Consistent()
    {
      WellLaidOut(desc, grid.Length0) &&
      above.Length == (if GhostAbove(desc.position) then grid.Length1 else 0) &&
      below.Length == (if GhostBelow(desc.position) then grid.Length1 else 0) &&
      above != below
    }

    /** Consistent, with the descriptor that the partition loop gives thread `rank` out
        of `threads` over this grid. */
    ghost predicate Valid()
    {
      Consistent() &&
      1 <= threads && desc.rank < threads && (threads > 1 ==> 1 <= grid.Length0) &&
      desc == Describe(grid.Length0, threads, desc.rank)
    }

    /** Sets up the thread described by `d` over `grid`, allocating its ghost rows. */
    constructor (grid: array2<V>, threads: nat, d: Descriptor)
      requires 1 <= threads && d.rank < threads && (threads > 1 ==> 1 <= grid.Length0)
      requires d == Describe(grid.Length0, threads, d.rank)
      ensures Valid() && fresh(above) && fresh(below)
      ensures this.grid == grid && this.threads == threads && desc == d
    {
      TableLayout(grid.Length0, threads, d.rank);
      this.grid := grid;
      this.threads := threads;
      desc := d;
      above := new V[if GhostAbove(d.position) then grid.Length1 else 0];
      below := new V[if GhostBelow(d.position) then grid.Length1 else 0];
    }

    /** `threadU[a][b]`: cell b of local row a, read through the row table. */
    function Cell(a: nat, b: nat): V
      requires Consistent() && a < desc.localM && b < grid.Length1
      reads grid, above, below
    {
      match desc.rows[a]
      case Owned(g) => grid[g, b]
      case Ghost => if a == 0 then above[b] else below[b]
    }

    /** `v` is the thread's current local view: `localM` rows of the grid's width. */
    ghost predicate Shows(v: seq<seq<V>>)
      requires Consistent()
      reads grid, above, below
    {
      |v| == desc.localM && Rect(v, grid.Length1) &&
      forall a, b :: 0 <= a < desc.localM && 0 <= b < grid.Length1 ==> v[a][b] == Cell(a, b)
    }

    /** Copies global row g into a ghost buffer, element by element. */
    method CopyRow(dst: array<V>, g: nat)
      requires dst.Length == grid.Length1 && g < grid.Length0
      modifies dst
      ensures forall b :: 0 <= b < grid.Length1 ==> dst[b] == grid[g, b]
    {
      var i := 0;
      while i < grid.Length1
        invariant i <= grid.Length1
        invariant forall b :: 0 <= b < i ==> dst[b] == grid[g, b]
      {
        dst[i] := grid[g, i];
        i := i + 1;
      }
    }

    /** The copy phase: TOP and MID copy global row `copyEnd` into the ghost row below
      their block, BOT and MID copy row `copyStart - 1` into the ghost row above it;
      WHOLE copies nothing. Only the ghost buffers change, never the grid. With two
      threads or more the grid needs two rows, for TOP's `u[copyEnd]` to exist. */
    method CopyGhosts()
      requires Valid() && (threads > 1 ==> grid.Length0 >= 2)
      modifies above, below
      ensures GhostBelow(desc.position) ==>
        desc.copyEnd < grid.Length0 &&
        forall b :: 0 <= b < grid.Length1 ==> below[b] == grid[desc.copyEnd, b]
      ensures GhostAbove(desc.position) ==>
        1 <= desc.copyStart <= grid.Length0 &&
        forall b :: 0 <= b < grid.Length1 ==> above[b] == grid[desc.copyStart - 1, b]
      ensures unchanged(grid)
      ensures 0 <= Base(desc) && Base(desc) + desc.localM <= grid.Length0 &&
        Shows(Window(desc, Rows(grid)))
    {
      if threads > 1 {
        GhostSources(grid.Length0, threads, desc.rank);
      }
      if desc.position != Whole {
        if desc.position == Top || desc.position == Mid {
          CopyRow(below, desc.copyEnd);
        }
        if desc.position == Bot || desc.position == Mid {
          CopyRow(above, desc.copyStart - 1);
        }
      }
      TableIsWindow(grid.Length0, threads, desc.rank);
      ShowsWindow();
    }

    /** Once the ghost rows hold copies of grid rows `copyStart - 1` and `copyEnd`, the
        local view is the window of grid rows `Base .. Base + localM - 1`. */
    lemma ShowsWindow()
      requires Consistent() && 0 <= Base(desc) && Base(desc) + desc.localM <= grid.Length0
      requires GhostBelow(desc.position) ==>
        Base(desc) + desc.localM - 1 == desc.copyEnd &&
        forall b :: 0 <= b < grid.Length1 ==> below[b] == grid[desc.copyEnd, b]
      requires GhostAbove(desc.position) ==>
        forall b :: 0 <= b < grid.Length1 ==> above[b] == grid[desc.copyStart - 1, b]
      ensures Shows(Window(desc, Rows(grid)))
    {
      var W := Window(desc, Rows(grid));
      forall a, b | 0 <= a < desc.localM && 0 <= b < grid.Length1
        ensures W[a][b] == Cell(a, b)
      {
        assert W[a] == Rows(grid)[Base(desc) + a];
      }
    }

    /** A view the thread shows survives a change of the grid that keeps every cell of
        the thread's block. */
    twostate lemma ShowsKept(v: seq<seq<V>>)
      requires Consistent() && old(Shows(v)) && unchanged(above, below)
      requires forall g, c :: desc.copyStart <= g < desc.copyEnd && g < grid.Length0 && 0 <= c < grid.Length1 ==>
        grid[g, c] == old(grid[g, c])
      ensures Shows(v)
    {
      forall a, b | 0 <= a < desc.localM && 0 <= b < grid.Length1
        ensures v[a][b] == Cell(a, b)
      {
        assert v[a][b] == old(Cell(a, b));
      }
    }

    /** A thread that shows the sweep of its window of G holds in its block the rows
        that RoundResult gives for G. */
    lemma BlockMatchesRound(G: seq<seq<V>>, relax: (V, V, V, V) -> V)
      requires Valid() && 2 <= threads && 2 <= grid.Length0
      requires |G| == grid.Length0 && Rect(G, grid.Length1)
      requires 0 <= Base(desc) && Base(desc) + desc.localM <= |G|
      requires Shows(Relaxed(Window(desc, G), grid.Length1, relax))
      ensures forall g, c :: desc.copyStart <= g < desc.copyEnd && 0 <= c < grid.Length1 ==>
        grid[g, c] == RoundResult(G, threads, grid.Length1, relax)[g][c]
    {
      var N := grid.Length1;
      var w := Relaxed(Window(desc, G), N, relax);
      forall g, c | desc.copyStart <= g < desc.copyEnd && 0 <= c < N
        ensures grid[g, c] == RoundResult(G, threads, N, relax)[g][c]
      {
        BlockRow(G, threads, N, relax, desc.rank, g);
        ShownOwned(w, g - Base(desc), c);
      }
    }

    /** An owned local row shows the grid row it aliases. */
    lemma ShownOwned(v: seq<seq<V>>, a: nat, b: nat)
      requires Consistent() && Shows(v) && a < desc.localM && b < grid.Length1 && desc.rows[a].Owned?
      ensures v[a][b] == grid[desc.rows[a].globalRow, b]
    {
      assert v[a][b] == Cell(a, b);
    }

    /** One step of the stencil loop: `threadU[i][j]` becomes the relaxation of its four
      neighbours. Local row i is never a ghost row, so exactly one grid cell changes. */
    method RelaxCell(i: nat, j: nat, relax: (V, V, V, V) -> V, ghost w: seq<seq<V>>)
      requires Consistent() && 1 <= i < desc.localM - 1 && 1 <= j < grid.Length1 - 1 && Shows(w)
      modifies grid
      ensures desc.rows[i].Owned? && Writes(desc, grid.Length1, desc.rows[i].globalRow, j)
      ensures Shows(RelaxAt(w, grid.Length1, i, j, relax))
      ensures forall g, c :: 0 <= g < grid.Length0 && 0 <= c < grid.Length1 && (g != desc.rows[i].globalRow || c != j) ==>
        grid[g, c] == old(grid[g, c])
    {
      var x := relax(Cell(i - 1, j), Cell(i + 1, j), Cell(i, j - 1), Cell(i, j + 1));
      var g := desc.rows[i].globalRow;
      grid[g, j] := x;
      assert Writes(desc, grid.Length1, g, j);
      forall a, b | 0 <= a < desc.localM && 0 <= b < grid.Length1
        ensures Cell(a, b) == RelaxAt(w, grid.Length1, i, j, relax)[a][b]
      {
        if desc.rows[a].Owned? {
          assert desc.rows[a].globalRow == g <==> a == i;
        }
      }
    }

    /** The inner loop for local row i: columns `1 .. N-2` in order. */
    method SweepLocalRow(i: nat, relax: (V, V, V, V) -> V, ghost w: seq<seq<V>>)
      requires Consistent() && 1 <= i < desc.localM - 1 && Shows(w)
      modifies grid
      ensures Shows(SweepRow(w, grid.Length1, i, Inner(grid.Length1), relax))
      ensures forall g, c :: 0 <= g < grid.Length0 && 0 <= c < grid.Length1 && !Writes(desc, grid.Length1, g, c) ==>
        grid[g, c] == old(grid[g, c])
    {
      var N := grid.Length1;
      var j := 1;
      while j < N - 1
        invariant 1 <= j && j - 1 <= Inner(N) && Rect(w, N) && |w| == desc.localM
        invariant Shows(SweepRow(w, N, i, j - 1, relax))
        invariant forall g, c :: 0 <= g < grid.Length0 && 0 <= c < N && !Writes(desc, N, g, c) ==>
          grid[g, c] == old(grid[g, c])
      {
        RelaxCell(i, j, relax, SweepRow(w, N, i, j - 1, relax));
        j := j + 1;
      }
      assert j - 1 == Inner(N);
    }

    /** The stencil loop: local rows `1 .. localM-2`, columns `1 .. N-2`, each cell
      replaced in place by the relaxation of its four neighbours. Starting from local view
      v it leaves the view `Relaxed(v)`, writes only the grid cells `Writes` names, and
      never writes a ghost row. */
    method Sweep(relax: (V, V, V, V) -> V, ghost v: seq<seq<V>>)
      requires Consistent() && Shows(v)
      modifies grid
      ensures Shows(Relaxed(v, grid.Length1, relax))
      ensures forall g, c :: 0 <= g < grid.Length0 && 0 <= c < grid.Length1 && !Writes(desc, grid.Length1, g, c) ==>
        grid[g, c] == old(grid[g, c])
    {
      var localM := desc.localM;
      var i := 1;
      while i < localM - 1
        invariant 1 <= i && i - 1 <= Inner(localM) && Rect(v, grid.Length1) && |v| == localM
        invariant Shows(SweepRows(v, grid.Length1, i - 1, relax))
        invariant forall g, c :: 0 <= g < grid.Length0 && 0 <= c < grid.Length1 && !Writes(desc, grid.Length1, g, c) ==>
          grid[g, c] == old(grid[g, c])
      {
        SweepLocalRow(i, relax, SweepRows(v, grid.Length1, i - 1, relax));
        i := i + 1;
      }
      assert Relaxed(v, grid.Length1, relax) == SweepRows(v, grid.Length1, i - 1, relax);
    }
  }

  /** The threads of one iteration: thread k is `workers[k]`, every thread is placed
      over the same grid, and no two threads share a ghost buffer. */
  ghost predicate Team<V(0)>(grid: array2<V>, workers: seq<Worker<V>>)
  {
    1 <= |workers| && (|workers| > 1 ==> 2 <= grid.Length0) &&
    (forall k :: 0 <= k < |workers| ==>
      workers[k].Valid() && workers[k].grid == grid && workers[k].threads == |workers| && workers[k].desc.rank == k) &&
    (forall k, k' :: 0 <= k < |workers| && 0 <= k' < |workers| && k != k' ==>
      {workers[k].above, workers[k].below} !! {workers[k'].above, workers[k'].below})
  }

  /** Every thread's window fits the grid. */
  lemma TeamWindows<V(0)>(grid: array2<V>, workers: seq<Worker<V>>)
    requires Team(grid, workers)
    ensures forall k :: 0 <= k < |workers| ==>
      0 <= Base(workers[k].desc) && Base(workers[k].desc) + workers[k].desc.localM <= grid.Length0
  {
    forall k | 0 <= k < |workers|
      ensures 0 <= Base(workers[k].desc) && Base(workers[k].desc) + workers[k].desc.localM <= grid.Length0
    {
      TableIsWindow(grid.Length0, |workers|, k);
    }
  }

  /** The copy phase of every thread: afterwards each thread shows its window of the
      grid, which the phase leaves as it was. */
  method CopyPhase<V(0)>(grid: array2<V>, workers: seq<Worker<V>>)
    requires Team(grid, workers)
    modifies set k | 0 <= k < |workers| :: workers[k].above, set k | 0 <= k < |workers| :: workers[k].below
    ensures unchanged(grid)
    ensures forall k :: 0 <= k < |workers| ==>
      0 <= Base(workers[k].desc) && Base(workers[k].desc) + workers[k].desc.localM <= grid.Length0 &&
      workers[k].Shows(Window(workers[k].desc, Rows(grid)))
  {
    TeamWindows(grid, workers);
    ghost var G := Rows(grid);
    var k := 0;
    while k < |workers|
      invariant k <= |workers| && unchanged(grid) && Rows(grid) == G
      invariant forall k' :: 0 <= k' < k ==> workers[k'].Shows(Window(workers[k'].desc, G))
    {
      workers[k].CopyGhosts();
      k := k + 1;
    }
  }

  /** What a thread shows during the stencil phase: the sweep of its window of G once
      its stencil loop has run (`ran`), the window itself before. */
  ghost function ViewDuring<V>(d: Descriptor, G: seq<seq<V>>, N: nat, relax: (V, V, V, V) -> V, ran: bool): seq<seq<V>>
    requires 0 <= Base(d) && Base(d) + d.localM <= |G| && Rect(G, N)
  {
    if ran then Relaxed(Window(d, G), N, relax) else Window(d, G)
  }

  /** The stencil loop of every thread, in rank order, starting from the views the copy
      phase left: afterwards each thread shows the sweep of its window, and a cell that
      no thread writes keeps its value. */
  method StencilPhase<V(0)>(grid: array2<V>, workers: seq<Worker<V>>, relax: (V, V, V, V) -> V, ghost G: seq<seq<V>>)
    requires Team(grid, workers) && G == Rows(grid)
    requires forall k :: 0 <= k < |workers| ==>
      0 <= Base(workers[k].desc) && Base(workers[k].desc) + workers[k].desc.localM <= grid.Length0 &&
      workers[k].Shows(Window(workers[k].desc, G))
    modifies grid
    ensures forall k :: 0 <= k < |workers| ==>
      workers[k].Shows(Relaxed(Window(workers[k].desc, G), grid.Length1, relax))
    ensures forall g, c ::
      (0 <= g < grid.Length0 && 0 <= c < grid.Length1 &&
       (forall k :: 0 <= k < |workers| ==> !Writes(workers[k].desc, grid.Length1, g, c))) ==>
      grid[g, c] == G[g][c]
  {
    var T := |workers|;
    ghost var M, N := grid.Length0, grid.Length1;
    var k := 0;
    while k < T
      invariant k <= T
      invariant forall k' :: 0 <= k' < T ==>
        workers[k'].Shows(ViewDuring(workers[k'].desc, G, N, relax, k' < k))
      invariant forall g, c :: 0 <= g < M && 0 <= c < N && (forall k' :: 0 <= k' < k ==> !Writes(workers[k'].desc, N, g, c)) ==>
        grid[g, c] == G[g][c]
    {
      SweepOne(grid, workers, k, relax, G);
      k := k + 1;
    }
  }

  /** Thread k's stencil loop inside the stencil phase: afterwards k shows its sweep,
      every other thread still shows what it showed, and only cells thread k writes
      change. */
  method SweepOne<V(0)>(grid: array2<V>, workers: seq<Worker<V>>, k: nat, relax: (V, V, V, V) -> V, ghost G: seq<seq<V>>)
    requires Team(grid, workers) && k < |workers| && |G| == grid.Length0 && Rect(G, grid.Length1)
    requires forall k' :: 0 <= k' < |workers| ==>
      0 <= Base(workers[k'].desc) && Base(workers[k'].desc) + workers[k'].desc.localM <= grid.Length0 &&
      workers[k'].Shows(ViewDuring(workers[k'].desc, G, grid.Length1, relax, k' < k))
    modifies grid
    ensures forall k' :: 0 <= k' < |workers| ==>
      workers[k'].Shows(ViewDuring(workers[k'].desc, G, grid.Length1, relax, k' < k + 1))
    ensures forall g, c :: 0 <= g < grid.Length0 && 0 <= c < grid.Length1 && !Writes(workers[k].desc, grid.Length1, g, c) ==>
      grid[g, c] == old(grid[g, c])
  {
    ghost var M, N, T := grid.Length0, grid.Length1, |workers|;
    workers[k].Sweep(relax, Window(workers[k].desc, G));
    // Thread k writes no cell of another thread's block and no ghost buffer.
    forall k' | 0 <= k' < T && k' != k
      ensures workers[k'].Shows(ViewDuring(workers[k'].desc, G, N, relax, k' < k + 1))
    {
      forall g, c | workers[k'].desc.copyStart <= g < workers[k'].desc.copyEnd && g < M && 0 <= c < N
        ensures grid[g, c] == old(grid[g, c])
      {
        NoCrossWrites(M, N, T, k, k', g, c);
      }
      workers[k'].ShowsKept(ViewDuring(workers[k'].desc, G, N, relax, k' < k));
    }
  }

  /** After the stencil phase, the grid is RoundResult of the grid G the copy phase
      saw. */
  lemma RoundAssembled<V(0)>(grid: array2<V>, workers: seq<Worker<V>>, relax: (V, V, V, V) -> V, G: seq<seq<V>>)
    requires Team(grid, workers) && |G| == grid.Length0 && Rect(G, grid.Length1)
    requires forall k :: 0 <= k < |workers| ==>
      0 <= Base(workers[k].desc) && Base(workers[k].desc) + workers[k].desc.localM <= grid.Length0 &&
      workers[k].Shows(Relaxed(Window(workers[k].desc, G), grid.Length1, relax))
    requires forall g, c ::
      (0 <= g < grid.Length0 && 0 <= c < grid.Length1 &&
       (forall k :: 0 <= k < |workers| ==> !Writes(workers[k].desc, grid.Length1, g, c))) ==>
      grid[g, c] == G[g][c]
    ensures Rows(grid) == RoundResult(G, |workers|, grid.Length1, relax)
  {
    var M, N, T := grid.Length0, grid.Length1, |workers|;
    var R := RoundResult(G, T, N, relax);
    forall g | 0 <= g < M
      ensures Rows(grid)[g] == R[g]
    {
      forall c | 0 <= c < N
        ensures grid[g, c] == R[g][c]
      {
        if T == 1 {
          WholeWritesNothing(M, N, g, c);
          assert R[g] == RoundRow(G, T, N, relax, g);
        } else {
          RowOwner(M, T, g);
          workers[g / Step(M, T)].BlockMatchesRound(G, relax);
        }
      }
    }
  }

  /** One iteration of the solver loop with all T threads: every thread's copy phase,
      then, after the barrier, every thread's stencil loop. The source runs the threads
      of each phase concurrently; the copy phase writes only private ghost rows, and in
      the stencil phase each thread writes only cells of its own block and reads only
      its own block and its ghost rows, so running the threads one after the other in
      rank order leaves the same grid, provided the barrier keeps the two phases apart.
      The result is RoundResult of the grid before the iteration. */
  method Round<V(0)>(grid: array2<V>, workers: seq<Worker<V>>, relax: (V, V, V, V) -> V)
    requires Team(grid, workers)
    modifies grid, set k | 0 <= k < |workers| :: workers[k].above, set k | 0 <= k < |workers| :: workers[k].below
    ensures Rows(grid) == RoundResult(old(Rows(grid)), |workers|, grid.Length1, relax)
  {
    ghost var G := Rows(grid);
    CopyPhase(grid, workers);
    StencilPhase(grid, workers, relax, G);
    RoundAssembled(grid, workers, relax, G);
  }
}
